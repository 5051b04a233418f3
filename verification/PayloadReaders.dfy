/** Payloads that come from, and go to, readers which report an end too early (crates/hide-object/src/lib.rs). */
module PayloadReaders {
  import opened Aead
  import opened Bytes
  import opened Payloads
  import opened PayloadTheorems
  import opened Results
  import opened Streams

  // ---------------------------------------------------------------- what a stream of fills opens to

  function KindAt(fills: seq<Bytes>, k: nat): byte {
    if k + 1 < |fills| then DATA else FINAL
  }

  /** Fills as a buffer yields them: none too long, and none empty but possibly the first. */
  predicate Fillings(fills: seq<Bytes>) {
    && fills != []
    && (forall k :: 0 <= k < |fills| ==> |fills[k]| <= CHUNK_LEN)
    && forall k :: 0 < k < |fills| ==> fills[k] != []
  }

  /** The records written for these fills open to them. */
  ghost predicate FillsOpen(o: Object, fills: seq<Bytes>) {
    && Tagged(o.cipher)
    && forall k :: 0 <= k < |fills| ==> ChunkOpens(o, k, KindAt(fills, k), fills[k])
  }

  /** Every buffer but the last was filled. */
  predicate Full(fills: seq<Bytes>) {
    forall k :: 0 <= k < |fills| - 1 ==> |fills[k]| == CHUNK_LEN
  }

  /** How many full fills come before the last one or before one that is short. */
  function Leading(fills: seq<Bytes>): (k: nat)
    requires fills != []
    ensures k < |fills| && forall j :: 0 <= j < k ==> |fills[j]| == CHUNK_LEN
    ensures k == |fills| - 1 || |fills[k]| != CHUNK_LEN
    ensures k == |fills| - 1 <==> Full(fills)
  {
    if |fills| == 1 || |fills[0]| != CHUNK_LEN then 0
    else
      FullOn(fills);
      1 + Leading(fills[1..])
  }

  lemma FullOn(fills: seq<Bytes>)
    requires |fills| > 1 && |fills[0]| == CHUNK_LEN
    ensures Full(fills) <==> Full(fills[1..])
  {
    if Full(fills[1..]) {
      forall k | 0 <= k < |fills| - 1 ensures |fills[k]| == CHUNK_LEN {
        assert k > 0 ==> fills[k] == fills[1..][k - 1];
      }
    }
  }

  /** A data record that is not a full chunk is refused, whatever it holds and whatever follows. */
  lemma ShortRefused(o: Object, counter: nat, chunk: Bytes, after: Bytes)
    requires Tagged(o.cipher) && |chunk| < CHUNK_LEN
    ensures NextRecord(o, Record(o, counter, DATA, chunk) + after, counter) == Err(InvalidRecord)
  {
    hide RecordHead, FromBigEndian, RecordNonce, ChunkAad;
    HeadReads(DATA, SealChunk(o, counter, DATA, chunk), after);
  }

  lemma {:induction false} EmittedFrom(o: Object, fills: seq<Bytes>, k: nat)
    requires Fillings(fills) && FillsOpen(o, fills) && k < |fills| <= MAX_CHUNKS && k <= Leading(fills)
    ensures Unstream(o, Emit(o, fills[k..], k), k)
         == if Full(fills) then Staged(Pass, Flat(fills[k..]))
            else Staged(Fail(InvalidRecord), Flat(fills[k..Leading(fills)]))
    decreases |fills| - k
  {
    hide Unstream, Emit, Flat, NextRecord, Record, ChunkOpens, Tagged;
    var fill, more := fills[k], fills[k + 1..];
    assert fills[k..] == [fill] + more;
    EmitStep(o, fill, more, k);
    UnstreamStep(o, Emit(o, fills[k..], k), k);
    if k < Leading(fills) {
      ChunkRoundTrip(o, k, DATA, fill, Emit(o, more, k + 1));
      EmittedFrom(o, fills, k + 1);
      var rest := fills[k + 1..Leading(fills)];
      assert fills[k..Leading(fills)] == [fill] + rest;
      EmitStep(o, fill, rest, k);
    } else if k == |fills| - 1 {
      ChunkRoundTrip(o, k, FINAL, fill, Emit(o, more, k + 1));
      assert fill + [] == fill;
    } else {
      assert more != [] && fills[k..Leading(fills)] == [];
      ShortRefused(o, k, fill, Emit(o, more, k + 1));
      EmptyFlat();
    }
  }

  lemma EmptyFlat()
    ensures Flat([]) == []
  {
  }

  /**
   What a writer makes of its fills opens to them if and only if every buffer but the last was full;
   otherwise it is refused at the first short one, once the full ones before it are staged.
   */
  lemma EmittedExactly(o: Object, fills: seq<Bytes>)
    requires Fillings(fills) && FillsOpen(o, fills) && |fills| <= MAX_CHUNKS
    ensures Unstream(o, Emit(o, fills, 0), 0)
         == if Full(fills) then Staged(Pass, Flat(fills))
            else Staged(Fail(InvalidRecord), Flat(fills[..Leading(fills)]))
  {
    hide Unstream, Emit, Flat, ChunkOpens, Tagged;
    EmittedFrom(o, fills, 0);
    assert fills[0..] == fills;
  }

  // ---------------------------------------------------------------- which fills a reader gives

  /** A plaintext as a reader hands it over that reports no end too early. */
  function Cut(plain: Bytes): (chunks: seq<Bytes>)
    ensures chunks != []
    decreases |plain|
  {
    if |plain| <= CHUNK_LEN then [plain] else [plain[..CHUNK_LEN]] + Cut(plain[CHUNK_LEN..])
  }

  lemma {:induction false} CutIsStream(o: Object, plain: Bytes, counter: nat)
    ensures Emit(o, Cut(plain), counter) == Stream(o, plain, counter)
    ensures Flat(Cut(plain)) == plain
    decreases |plain|
  {
    hide Record, Emit, Flat;
    if |plain| <= CHUNK_LEN {
      EmitStep(o, plain, [], counter);
      assert [plain] + [] == [plain];
      assert plain + [] == plain && Record(o, counter, FINAL, plain) + [] == Record(o, counter, FINAL, plain);
    } else {
      EmitStep(o, plain[..CHUNK_LEN], Cut(plain[CHUNK_LEN..]), counter);
      CutIsStream(o, plain[CHUNK_LEN..], counter + 1);
    }
  }

  lemma {:induction false} FullIsCut(fills: seq<Bytes>)
    requires Fillings(fills) && Full(fills)
    ensures fills == Cut(Flat(fills))
    decreases |fills|
  {
    if |fills| == 1 {
      assert fills[1..] == [];
      assert fills[0] + [] == fills[0];
    } else {
      var more := fills[1..];
      assert forall k :: 0 <= k < |more| ==> more[k] == fills[k + 1];
      FullIsCut(more);
      var whole := fills[0] + Flat(more);
      assert whole[..CHUNK_LEN] == fills[0] && whole[CHUNK_LEN..] == Flat(more);
      assert more[0] != [] && |Flat(more)| >= |more[0]|;
      assert fills == [fills[0]] + more;
    }
  }

  lemma {:induction false} FillingsFrom(script: seq<Event>, pending: Bytes)
    ensures var fills := TakenFrom(script, pending).fills;
            && (forall k :: 0 <= k < |fills| ==> 0 < |fills[k]| <= CHUNK_LEN) && Flat(fills) <= pending
    decreases |pending|
  {
    hide Filled;
    var (count, after) := Filled(script, |pending|, CHUNK_LEN);
    if count.Some? && count.value > 0 {
      FillingsFrom(after, pending[count.value..]);
      FlatBefore(pending, count.value, TakenFrom(after, pending[count.value..]).fills);
    }
  }

  lemma FlatBefore(pending: Bytes, n: nat, more: seq<Bytes>)
    requires n <= |pending| && Flat(more) <= pending[n..]
    ensures Flat([pending[..n]] + more) <= pending
  {
    assert ([pending[..n]] + more)[1..] == more;
    assert pending == pending[..n] + pending[n..];
  }

  /** What a reader that does not break hands over are fillings, and a prefix of its input. */
  lemma TakenFills(script: seq<Event>, plain: Bytes)
    requires Steady(script)
    ensures var taken := TakenAll(script, plain);
            !taken.broken && Fillings(taken.fills) && Flat(taken.fills) <= plain
  {
    FilledFacts(script, |plain|, CHUNK_LEN);
    hide Filled, TakenFrom, Steady, Flat;
    var (count, after) := Filled(script, |plain|, CHUNK_LEN);
    FillingsFrom(after, plain[count.value..]);
    NeverBroken(after, plain[count.value..]);
    FlatBefore(plain, count.value, TakenFrom(after, plain[count.value..]).fills);
  }

  lemma {:induction false} NeverBroken(script: seq<Event>, pending: Bytes)
    requires Steady(script)
    ensures !TakenFrom(script, pending).broken
    decreases |pending|
  {
    hide Filled, Steady;
    FilledFacts(script, |pending|, CHUNK_LEN);
    var (count, after) := Filled(script, |pending|, CHUNK_LEN);
    if count.value > 0 {
      NeverBroken(after, pending[count.value..]);
    }
  }

  /**
   A read reports an end while bytes are left, in the course of filling buffers of which the present
   one lacks `want` bytes.
   */
  predicate Starves(script: seq<Event>, available: nat, want: nat)
    decreases |script|, if want == 0 then 1 else 0
  {
    if script == [] || available == 0 then false
    else if want == 0 then Starves(script, available, CHUNK_LEN)
    else
      match script[0]
      case Interrupted => Starves(script[1..], available, want)
      case Broken => false
      case Deliver(atMost) =>
        var n := Delivered(atMost, available, want);
        n == 0 || Starves(script[1..], available - n, want - n)
  }

  /** A reader starves in the present buffer, or with a later one. */
  lemma {:induction false} StarvesStep(script: seq<Event>, available: nat, want: nat)
    requires Steady(script)
    ensures var (count, after) := Filled(script, available, want);
            && count.Some? && Steady(after)
            && (Starves(script, available, want)
                <==> count.value < Min(available, want) || Starves(after, available - count.value, CHUNK_LEN))
    decreases |script|
  {
    FilledFacts(script, available, want);
    if want > 0 && script != [] {
      var n := if script[0].Deliver? then Delivered(script[0].atMost, available, want) else 0;
      if n > 0 || script[0].Interrupted? {
        StarvesStep(script[1..], available - n, want - n);
      }
    }
  }

  lemma {:induction false} CutFrom(script: seq<Event>, plain: Bytes)
    requires Steady(script) && plain != []
    ensures TakenFrom(script, plain).fills == Cut(plain) <==> !Starves(script, |plain|, CHUNK_LEN)
    decreases |plain|
  {
    hide Filled, Starves, Steady;
    StarvesStep(script, |plain|, CHUNK_LEN);
    var (count, after) := Filled(script, |plain|, CHUNK_LEN);
    var n := count.value;
    if n == Min(|plain|, CHUNK_LEN) {
      CutOn(after, plain, n);
    } else if n > 0 {
      assert |TakenFrom(script, plain).fills[0]| == n && |Cut(plain)[0]| == Min(|plain|, CHUNK_LEN);
    }
  }

  /** Once a buffer is as full as it can be, the rest decides. */
  lemma CutOn(after: seq<Event>, plain: Bytes, n: nat)
    requires Steady(after) && n == Min(|plain|, CHUNK_LEN)
    ensures [plain[..n]] + TakenFrom(after, plain[n..]).fills == Cut(plain) <==> !Starves(after, |plain| - n, CHUNK_LEN)
    decreases |plain|, 0
  {
    hide Filled, Steady;
    var rest, more := plain[n..], TakenFrom(after, plain[n..]).fills;
    if rest == [] {
      StarvesStep(after, 0, CHUNK_LEN);
      assert plain[..n] == plain && more == [];
      assert [plain] + [] == [plain];
    } else {
      CutFrom(after, rest);
      assert ([plain[..n]] + more)[1..] == more && Cut(plain)[1..] == Cut(rest);
    }
  }

  /** A reader gives chunk after full chunk if and only if it does not starve. */
  lemma CutExactly(script: seq<Event>, plain: Bytes)
    requires Steady(script)
    ensures TakenAll(script, plain).fills == Cut(plain) <==> !Starves(script, |plain|, CHUNK_LEN)
  {
    hide Filled, Starves, Steady, TakenFrom;
    StarvesStep(script, |plain|, CHUNK_LEN);
    var (count, after) := Filled(script, |plain|, CHUNK_LEN);
    if count.value == Min(|plain|, CHUNK_LEN) {
      CutOn(after, plain, count.value);
    } else {
      assert |TakenAll(script, plain).fills[0]| == count.value && |Cut(plain)[0]| == Min(|plain|, CHUNK_LEN);
    }
  }

  // ---------------------------------------------------------------- what becomes of the container

  lemma CorrectFillsOpen(o: Object, fills: seq<Bytes>)
    requires Correct(o.cipher)
    ensures FillsOpen(o, fills)
  {
    hide RecordNonce, ChunkAad, KindAt;
  }

  /**
   What is written for a reader opens to all of its input if and only if the reader does not starve.
   If it does, and a buffer before the last was short, the stream is refused at that buffer; if only
   the last was, the stream is accepted and holds less than the input.
   */
  lemma WrittenOpensExactly(o: Object, script: seq<Event>, plain: Bytes)
    requires Steady(script) && FillsOpen(o, TakenAll(script, plain).fills)
    requires |TakenAll(script, plain).fills| <= MAX_CHUNKS
    ensures var fills := TakenAll(script, plain).fills;
            var staged := Unstream(o, Emit(o, fills, 0), 0);
            && (staged == Staged(Pass, plain) <==> !Starves(script, |plain|, CHUNK_LEN))
            && (staged.verdict == Fail(InvalidRecord) <==> !Full(fills))
            && (staged.verdict == Pass <==> Full(fills))
            && staged.plain <= plain
  {
    hide TakenAll, Unstream, Emit, Starves, Steady, Full, Flat, Cut, FillsOpen, Fillings;
    var fills := TakenAll(script, plain).fills;
    TakenFills(script, plain);
    EmittedExactly(o, fills);
    CutExactly(script, plain);
    CutIsStream(o, plain, 0);
    LeadingIsPrefix(fills);
    if Full(fills) {
      FullIsCut(fills);
    }
    if fills == Cut(plain) {
      CutIsFull(plain);
    }
  }

  lemma LeadingIsPrefix(fills: seq<Bytes>)
    requires Fillings(fills)
    ensures Flat(fills[..Leading(fills)]) <= Flat(fills)
  {
    FlatPrefix(fills, Leading(fills));
  }

  lemma {:induction false} FlatPrefix(fills: seq<Bytes>, k: nat)
    requires k <= |fills|
    ensures Flat(fills[..k]) <= Flat(fills)
    decreases k
  {
    if k > 0 {
      FlatPrefix(fills[1..], k - 1);
      assert fills[..k][1..] == fills[1..][..k - 1];
    }
  }

  lemma {:induction false} CutIsFull(plain: Bytes)
    ensures Full(Cut(plain))
    decreases |plain|
  {
    if |plain| > CHUNK_LEN {
      CutIsFull(plain[CHUNK_LEN..]);
      var chunks := Cut(plain);
      assert chunks[1..] == Cut(plain[CHUNK_LEN..]);
      FullOn(chunks);
    }
  }

  /** Three bytes, an early end, one more byte: written without an error, refused by every reader. */
  lemma ShortFillRefused(o: Object)
    requires Tagged(o.cipher)
    ensures var taken := TakenAll([Deliver(3), Deliver(0), Deliver(1)], [1, 2, 3, 4]);
            && taken == Taken([[1, 2, 3], [4]], false)
            && Unstream(o, Emit(o, taken.fills, 0), 0) == Staged(Fail(InvalidRecord), [])
  {
    var script, plain: Bytes := [Deliver(3), Deliver(0), Deliver(1)], [1, 2, 3, 4];
    assert script[1..] == [Deliver(0), Deliver(1)] && script[1..][1..] == [Deliver(1)];
    assert [Deliver(1)][1..] == [];
    assert Filled([Deliver(1)], 1, CHUNK_LEN) == (Some(1), []);
    assert Filled(script, 4, CHUNK_LEN) == (Some(3), [Deliver(1)]);
    assert plain[..3] == [1, 2, 3] && plain[3..] == [4];
    var last: Bytes := [4];
    assert last[..1] == [4] && last[1..] == [];
    assert TakenFrom([], []) == Taken([], false);
    assert TakenFrom([Deliver(1)], [4]) == Taken([[4]], false);
    var fills: seq<Bytes> := [[1, 2, 3], [4]];
    assert fills == [[1, 2, 3]] + [[4]];
    hide Unstream, Emit, NextRecord, Tagged, Record, TakenFrom, Filled;
    EmitStep(o, [1, 2, 3], [[4]], 0);
    ShortRefused(o, 0, [1, 2, 3], Emit(o, [[4]], 1));
    UnstreamStep(o, Emit(o, fills, 0), 0);
  }

  /** How much input makes a script run into each early end it holds. */
  function Demand(script: seq<Event>): nat {
    if script == [] then 1
    else Demand(script[1..]) + if script[0].Deliver? then script[0].atMost else 0
  }

  lemma {:induction false} ImpatientStarves(script: seq<Event>, available: nat, want: nat)
    requires Steady(script) && !Patient(script) && available >= Demand(script)
    ensures Starves(script, available, want)
    decreases |script|, if want == 0 then 1 else 0
  {
    DemandsSome(script);
    if want == 0 {
      ImpatientStarves(script, available, CHUNK_LEN);
    } else if script[0] != Deliver(0) {
      var n := if script[0].Deliver? then Delivered(script[0].atMost, available, want) else 0;
      ImpatientStarves(script[1..], available - n, want - n);
    }
  }

  lemma DemandsSome(script: seq<Event>)
    ensures Demand(script) > 0
  {
  }

  lemma {:induction false} PatientNeverStarves(script: seq<Event>, available: nat, want: nat)
    requires Patient(script)
    ensures !Starves(script, available, want)
    decreases |script|, if want == 0 then 1 else 0
  {
    if script != [] && available > 0 {
      assert script[0] != Deliver(0);
      if want == 0 {
        PatientNeverStarves(script, available, CHUNK_LEN);
      } else if !script[0].Broken? {
        var n := if script[0].Deliver? then Delivered(script[0].atMost, available, want) else 0;
        PatientNeverStarves(script[1..], available - n, want - n);
      }
    }
  }

  /** The readers that never starve, whatever they read, are those that report no end before the last byte. */
  lemma PatientExactly(script: seq<Event>)
    requires Steady(script)
    ensures Patient(script) <==> forall plain: Bytes :: !Starves(script, |plain|, CHUNK_LEN)
  {
    hide Starves, Steady, Patient;
    if Patient(script) {
      forall plain: Bytes ensures !Starves(script, |plain|, CHUNK_LEN) {
        PatientNeverStarves(script, |plain|, CHUNK_LEN);
      }
    } else {
      var plain := Zeros(Demand(script));
      ImpatientStarves(script, |plain|, CHUNK_LEN);
    }
  }

  // ---------------------------------------------------------------- an early end while reading back

  lemma {:induction false} TruncatedFrom(o: Object, plain: Bytes, counter: nat, s: Bytes)
    requires Faithful(o, plain) && |plain| <= MAX_PLAINTEXT && HasRecord(plain, counter)
    requires s < Stream(o, RestAt(plain, counter), counter)
    ensures var staged := Unstream(o, s, counter);
            && staged.verdict == Fail(TruncatedPayload)
            && staged.plain <= RestAt(plain, counter) && |staged.plain| % CHUNK_LEN == 0
    decreases |s|
  {
    hide Unstream, Stream, NextRecord, Record, RecordOpens;
    var rest := RestAt(plain, counter);
    var record := Record(o, counter, KindOf(rest), ChunkOf(rest));
    StreamStep(o, rest, counter);
    UnstreamStep(o, s, counter);
    assert RecordOpens(o, counter, rest);
    if |s| < |record| {
      assert s < record by { assert s == Stream(o, rest, counter)[..|s|] == record[..|s|]; }
      CutRecord(o, counter, rest, s);
    } else {
      assert |rest| > CHUNK_LEN;
      var more := RestAt(plain, counter + 1);
      var t := s[|record|..];
      assert more == rest[CHUNK_LEN..];
      assert s == record + t && t < Stream(o, more, counter + 1) by {
        PrefixBehind(s, record, Stream(o, more, counter + 1));
      }
      RecordRoundTrip(o, counter, rest, t);
      RecordNotEmpty(o, counter, KindOf(rest), ChunkOf(rest));
      TruncatedFrom(o, plain, counter + 1, t);
      assert rest == rest[..CHUNK_LEN] + more;
    }
  }

  lemma PrefixBehind(s: Bytes, a: Bytes, b: Bytes)
    requires s < a + b && |s| >= |a|
    ensures s == a + s[|a|..] && s[|a|..] < b
  {
    assert s == (a + b)[..|s|];
  }

  lemma RecordNotEmpty(o: Object, counter: nat, kind: byte, chunk: Bytes)
    ensures |Record(o, counter, kind, chunk)| >= 5
  {
    hide RecordHead, SealChunk;
  }

  lemma CutRecord(o: Object, counter: nat, rest: Bytes, s: Bytes)
    requires RecordOpens(o, counter, rest) && (counter > 0 ==> rest != [])
    requires s < Record(o, counter, KindOf(rest), ChunkOf(rest))
    ensures NextRecord(o, s, counter) == Err(TruncatedPayload)
  {
    hide RecordHead, FromBigEndian, SealChunk;
    var record := Record(o, counter, KindOf(rest), ChunkOf(rest));
    var sealed := SealChunk(o, counter, KindOf(rest), ChunkOf(rest));
    HeadReads(KindOf(rest), sealed, []);
    assert record + [] == record;
    if |s| >= 5 {
      assert s[0] == record[0] && s[1..5] == record[1..5];
    }
  }

  /**
   An end reported early while a container is read back is never taken for the end of the plaintext:
   wherever it comes, the payload is refused as truncated, with only whole chunks staged.
   */
  lemma EarlyEndIsTruncation(o: Object, plain: Bytes, seen: Bytes)
    requires Faithful(o, plain) && |plain| <= MAX_PLAINTEXT && seen < Stream(o, plain, 0)
    ensures var staged := Unstream(o, seen, 0);
            && staged.verdict == Fail(TruncatedPayload)
            && staged.plain <= plain && |staged.plain| % CHUNK_LEN == 0
  {
    hide Unstream, Stream, Faithful;
    assert RestAt(plain, 0) == plain;
    TruncatedFrom(o, plain, 0, seen);
  }
}
