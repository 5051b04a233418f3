/** The payload stream of a container (crates/hide-object/src/lib.rs). */
module Payloads {
  import opened Aead
  import opened Bytes
  import opened Hashing
  import opened Results
  import opened Streams

  const DATA: byte := 1
  const FINAL: byte := 2
  const CHUNK_LEN := 65536
  const RECORD_LEN := 65552
  const MAX_CHUNKS := 0x1_0000_0000

  datatype ObjectError = TruncatedPayload | InvalidRecord | TrailingData | ObjectTooLarge | Authentication | Io

  /** What fixes the meaning of a record: the cipher, its key and the container it belongs to. */
  datatype Object = Object(cipher: Cipher, key: Bytes, id: Digest, headerHash: Digest)

  // ---------------------------------------------------------------- one record

  function RecordNonce(counter: nat, kind: byte): Nonce {
    [0, 0, 0] + BigEndian(counter, 8) + [if kind == FINAL then 1 else 0]
  }

  function ChunkAad(o: Object, counter: nat, kind: byte, length: nat): Bytes {
    Ascii("HIDE/0.1 chunk") + o.id + o.headerHash + BigEndian(counter, 8) + [kind] + BigEndian(length, 4)
  }

  function SealChunk(o: Object, counter: nat, kind: byte, chunk: Bytes): Bytes {
    o.cipher.seal(o.key, RecordNonce(counter, kind), ChunkAad(o, counter, kind, |chunk|), chunk)
  }

  function OpenChunk(o: Object, counter: nat, kind: byte, sealed: Bytes): Option<Bytes>
    requires |sealed| >= TAG_LEN
  {
    o.cipher.open(o.key, RecordNonce(counter, kind), ChunkAad(o, counter, kind, |sealed| - TAG_LEN), sealed)
  }

  function RecordHead(kind: byte, sealed: nat): (head: Bytes)
    ensures |head| == 5
  {
    [kind] + BigEndian(sealed, 4)
  }

  function Record(o: Object, counter: nat, kind: byte, chunk: Bytes): Bytes {
    RecordHead(kind, |SealChunk(o, counter, kind, chunk)|) + SealChunk(o, counter, kind, chunk)
  }

  /** Data records hold exactly one chunk; the final one may be empty only when it is the first. */
  function RecordLength(kind: byte, sealed: nat, counter: nat): Result<nat, ObjectError> {
    if !(TAG_LEN <= sealed <= RECORD_LEN) then Err(InvalidRecord)
    else
      var length := sealed - TAG_LEN;
      if kind == DATA && length == CHUNK_LEN then Ok(length)
      else if kind == FINAL && (length > 0 || counter == 0) then Ok(length)
      else Err(InvalidRecord)
  }

  // ---------------------------------------------------------------- the whole stream

  /** The records of what is left of a plaintext, from the record numbered `counter`. */
  function Stream(o: Object, plain: Bytes, counter: nat): Bytes
    decreases |plain|
  {
    if |plain| <= CHUNK_LEN then Record(o, counter, FINAL, plain)
    else Record(o, counter, DATA, plain[..CHUNK_LEN]) + Stream(o, plain[CHUNK_LEN..], counter + 1)
  }

  /** One byte string after another. */
  function Flat(parts: seq<Bytes>): Bytes {
    if parts == [] then [] else parts[0] + Flat(parts[1..])
  }

  /** The records of a writer that got these fills of its buffer: all but the last are data records. */
  function Emit(o: Object, fills: seq<Bytes>, counter: nat): Bytes {
    if fills == [] then []
    else if |fills| == 1 then Record(o, counter, FINAL, fills[0])
    else Record(o, counter, DATA, fills[0]) + Emit(o, fills[1..], counter + 1)
  }

  /** The fills a reader gives, and whether it broke before it reported an end. */
  datatype Taken = Taken(fills: seq<Bytes>, broken: bool)

  function Before(fill: Bytes, more: Taken): Taken {
    Taken([fill] + more.fills, more.broken)
  }

  /** Fill after fill, up to the first that comes back empty. */
  function TakenFrom(script: seq<Event>, pending: Bytes): Taken
    decreases |pending|
  {
    var (count, after) := Filled(script, |pending|, CHUNK_LEN);
    match count
    case None => Taken([], true)
    case Some(n) => if n == 0 then Taken([], false) else Before(pending[..n], TakenFrom(after, pending[n..]))
  }

  /** As a writer takes them: its first fill is taken even when it is empty. */
  function TakenAll(script: seq<Event>, pending: Bytes): Taken {
    var (count, after) := Filled(script, |pending|, CHUNK_LEN);
    match count
    case None => Taken([], true)
    case Some(n) => Before(pending[..n], TakenFrom(after, pending[n..]))
  }

  /** What a reader makes of a stream: its verdict, and the plaintext it staged before that. */
  datatype Staged = Staged(verdict: Outcome<ObjectError>, plain: Bytes)

  function After(chunk: Bytes, more: Staged): Staged {
    Staged(more.verdict, chunk + more.plain)
  }

  /** The first record of what is left of a stream: its kind, its chunk and what follows it. */
  function NextRecord(o: Object, s: Bytes, counter: nat): (next: Result<(byte, Bytes, Bytes), ObjectError>)
    ensures next.Ok? ==> |next.value.2| < |s|
  {
    if |s| < 5 then Err(TruncatedPayload)
    else
      var kind, sealed := s[0], FromBigEndian(s[1..5]);
      if RecordLength(kind, sealed, counter).Err? then Err(InvalidRecord)
      else if |s| < 5 + sealed then Err(TruncatedPayload)
      else
        match OpenChunk(o, counter, kind, s[5..][..sealed])
        case None => Err(Authentication)
        case Some(chunk) => Ok((kind, chunk, s[5..][sealed..]))
  }

  function Unstream(o: Object, s: Bytes, counter: nat): Staged
    decreases |s|
  {
    if counter >= MAX_CHUNKS then Staged(Fail(ObjectTooLarge), [])
    else
      match NextRecord(o, s, counter)
      case Err(error) => Staged(Fail(error), [])
      case Ok((kind, chunk, rest)) =>
        if kind != FINAL then After(chunk, Unstream(o, rest, counter + 1))
        else if rest != [] then Staged(Fail(TrailingData), [])
        else Staged(Pass, chunk)
  }

  // ---------------------------------------------------------------- writing it

  method SealInPlace(o: Object, counter: nat, kind: byte, buffer: array<byte>, length: nat) returns (sealed: nat)
    requires Tagged(o.cipher) && length <= CHUNK_LEN && buffer.Length == RECORD_LEN
    modifies buffer
    ensures sealed == length + TAG_LEN
    ensures buffer[..sealed] == SealChunk(o, counter, kind, old(buffer[..length]))
  {
    var ciphertext := SealChunk(o, counter, kind, buffer[..length]);
    sealed := length + TAG_LEN;
    forall i | 0 <= i < sealed {
      buffer[i] := ciphertext[i];
    }
  }

  /** Seals `buffer[..length]` in place and writes it behind its head. */
  method WriteRecord(o: Object, output: Sink, counter: nat, kind: byte, buffer: array<byte>, length: nat)
    returns (ok: bool)
    requires Tagged(o.cipher) && length <= CHUNK_LEN && buffer.Length == RECORD_LEN
    modifies buffer, output
    ensures var record := Record(o, counter, kind, old(buffer[..length]));
            && ok == (|record| <= old(output.room))
            && old(output.written) <= output.written <= old(output.written) + record
            && (ok ==> output.written == old(output.written) + record && output.room == old(output.room) - |record|)
  {
    var sealed := SealInPlace(o, counter, kind, buffer, length);
    hide RecordHead, SealChunk;
    ok := output.WriteAll(RecordHead(kind, sealed));
    if ok {
      ok := output.WriteAll(buffer[..sealed]);
    }
  }

  /** What has been written so far, and what is still to come, make up the whole. */
  ghost predicate Underway(start: Bytes, whole: Bytes, written: Bytes, more: Bytes) {
    start <= written && written + more == start + whole
  }

  lemma UnderwayStep(start: Bytes, whole: Bytes, written: Bytes, record: Bytes, more: Bytes, after: Bytes)
    requires Underway(start, whole, written, record + more) && written <= after <= written + record
    ensures start <= after <= start + whole
    ensures |written| - |start| + |record| <= |whole|
    ensures after == written + record ==> Underway(start, whole, after, more)
  {
    assert written + (record + more) == (written + record) + more;
  }

  lemma UnderwayFacts(start: Bytes, whole: Bytes, written: Bytes, more: Bytes)
    requires Underway(start, whole, written, more)
    ensures start <= written <= start + whole
    ensures more == [] ==> written == start + whole
  {
  }

  lemma UnderwayStart(start: Bytes, whole: Bytes)
    ensures Underway(start, whole, start, whole)
  {
  }

  /** With two buffers, each of them written only once the next has been filled. */
  method EncryptRecords(o: Object, input: Reader, output: Sink) returns (result: Result<nat, ObjectError>)
    requires Tagged(o.cipher)
    modifies input, output
    ensures var taken, start := TakenAll(old(input.script), old(input.pending)), old(output.written);
            var whole := Emit(o, taken.fills, 0);
            && start <= output.written <= start + whole
            && (result.Ok? <==> !taken.broken && |taken.fills| <= MAX_CHUNKS && |whole| <= old(output.room))
            && (result.Ok? ==> output.written == start + whole && result.value == |Flat(taken.fills)|)
            && (result.Ok? || result == Err(ObjectTooLarge) || result == Err(Io))
            && (result == Err(ObjectTooLarge) ==> |taken.fills| > MAX_CHUNKS)
            && (result == Err(Io) ==> taken.broken || |whole| > old(output.room))
  {
    hide Emit, Record, Filled, TakenFrom, Underway, Flat;
    ghost var taken, start, space := TakenAll(input.script, input.pending), output.written, output.room;
    ghost var whole := Emit(o, taken.fills, 0);
    var current := new byte[RECORD_LEN];
    var next := new byte[RECORD_LEN];
    UnderwayStart(start, whole);
    UnderwayFacts(start, whole, start, whole);
    var first := ReadChunk(input, current, CHUNK_LEN);
    if first.Err? {
      return Err(Io);
    }
    var length := first.value;
    var counter := 0;
    var total := 0;
    while true
      invariant current.Length == next.Length == RECORD_LEN && fresh(current) && fresh(next) && current != next
      invariant 0 <= length <= CHUNK_LEN && counter <= MAX_CHUNKS
      invariant var rest := Before(current[..length], TakenFrom(input.script, input.pending));
                && taken.broken == rest.broken && |taken.fills| == counter + |rest.fills|
                && |Flat(taken.fills)| == total + |Flat(rest.fills)|
                && Underway(start, whole, output.written, Emit(o, rest.fills, counter))
      invariant |output.written| + output.room == |start| + space
      decreases |input.pending|
    {
      ghost var fill, more := current[..length], TakenFrom(input.script, input.pending);
      UnderwayFacts(start, whole, output.written, Emit(o, [fill] + more.fills, counter));
      if counter >= MAX_CHUNKS {
        return Err(ObjectTooLarge);
      }
      TakenStep(input.script, input.pending);
      var read := ReadChunk(input, next, CHUNK_LEN);
      if read.Err? {
        return Err(Io);
      }
      var kind := if read.value == 0 then FINAL else DATA;
      EmitStep(o, fill, more.fills, counter);
      ghost var before := output.written;
      ghost var record := Record(o, counter, kind, fill);
      var ok := WriteRecord(o, output, counter, kind, current, length);
      UnderwayStep(start, whole, before, record, Emit(o, more.fills, counter + 1), output.written);
      if !ok {
        return Err(Io);
      }
      total := total + length;
      if kind == FINAL {
        UnderwayFacts(start, whole, output.written, []);
        return Ok(total);
      }
      current, next := next, current;
      length := read.value;
      counter := counter + 1;
    }
  }

  lemma TakenStep(script: seq<Event>, pending: Bytes)
    ensures var (count, after) := Filled(script, |pending|, CHUNK_LEN);
            TakenFrom(script, pending)
            == match count
               case None => Taken([], true)
               case Some(n) => if n == 0 then Taken([], false) else Before(pending[..n], TakenFrom(after, pending[n..]))
  {
  }

  /** The record that stands for the first of some fills, and the records after it. */
  lemma EmitStep(o: Object, fill: Bytes, more: seq<Bytes>, counter: nat)
    ensures Emit(o, [fill] + more, counter)
         == Record(o, counter, if more == [] then FINAL else DATA, fill) + Emit(o, more, counter + 1)
    ensures Flat([fill] + more) == fill + Flat(more)
    ensures more == [] ==> Emit(o, more, counter + 1) == [] && Flat(more) == []
  {
    hide Record;
    assert ([fill] + more)[1..] == more;
  }

  /** The record a stream begins with, and the stream after it. */
  lemma StreamStep(o: Object, rest: Bytes, counter: nat)
    ensures var length := Min(CHUNK_LEN, |rest|);
            var kind := if |rest| <= CHUNK_LEN then FINAL else DATA;
            Stream(o, rest, counter) == Record(o, counter, kind, rest[..length])
                                        + (if kind == FINAL then [] else Stream(o, rest[length..], counter + 1))
  {
    if |rest| <= CHUNK_LEN {
      assert rest[..|rest|] == rest;
    }
  }

  // ---------------------------------------------------------------- reading it

  /**
   Fills `buffer[..want]` or fails: with an early end, or with what the reader failed with. An end
   that is reported too early passes for the real one: `seen` is all the input there seems to be.
   */
  method ReadPayload(input: Reader, buffer: array<byte>, want: nat)
    returns (outcome: Outcome<ObjectError>, ghost seen: Bytes)
    requires want <= buffer.Length
    modifies input, buffer
    ensures seen <= old(input.pending) && (Patient(old(input.script)) ==> seen == old(input.pending))
    ensures Patient(old(input.script)) ==> Patient(input.script)
    ensures Steady(old(input.script)) ==> Steady(input.script) && outcome != Fail(Io)
    ensures outcome == Pass || outcome == Fail(TruncatedPayload) || outcome == Fail(Io)
    ensures outcome == Fail(TruncatedPayload) ==> |seen| < want
    ensures outcome != Fail(TruncatedPayload) ==> seen == old(input.pending)
    ensures outcome.Pass? ==>
              && want <= |old(input.pending)|
              && buffer[..want] == old(input.pending)[..want] && input.pending == old(input.pending)[want..]
  {
    hide Filled, Steady, Patient;
    seen := input.pending;
    FilledFacts(input.script, |input.pending|, want);
    var read := ReadChunk(input, buffer, want);
    if read.Err? {
      return Fail(Io), seen;
    }
    if read.value < want {
      return Fail(TruncatedPayload), seen[..read.value];
    }
    return Pass, seen;
  }

  method OpenInPlace(o: Object, counter: nat, kind: byte, buffer: array<byte>, sealed: nat)
    returns (length: Option<nat>)
    requires Tagged(o.cipher) && TAG_LEN <= sealed <= buffer.Length
    modifies buffer
    ensures match OpenChunk(o, counter, kind, old(buffer[..sealed]))
            case None => length == None
            case Some(chunk) => length == Some(|chunk|) && |chunk| == sealed - TAG_LEN && buffer[..|chunk|] == chunk
  {
    var chunk := OpenChunk(o, counter, kind, buffer[..sealed]);
    if chunk.None? {
      return None;
    }
    forall i | 0 <= i < |chunk.value| {
      buffer[i] := chunk.value[i];
    }
    return Some(|chunk.value|);
  }

  /** Reads and opens one record: its chunk is left at the front of the buffer. */
  method ReadRecord(o: Object, input: Reader, buffer: array<byte>, counter: nat)
    returns (result: Result<(byte, nat), ObjectError>, ghost seen: Bytes)
    requires Tagged(o.cipher) && buffer.Length == RECORD_LEN
    modifies input, buffer
    ensures seen <= old(input.pending) && (Patient(old(input.script)) ==> seen == old(input.pending))
    ensures Patient(old(input.script)) ==> Patient(input.script)
    ensures Steady(old(input.script)) ==> Steady(input.script) && result != Err(Io)
    ensures result.Ok? ==> result.value.1 <= buffer.Length
                           && (result.value.0 != FINAL ==> result.value.1 == CHUNK_LEN)
                           && NextRecord(o, old(input.pending), counter)
                              == Ok((result.value.0, buffer[..result.value.1], input.pending))
    ensures result.Err? && result.error != Io ==> NextRecord(o, seen, counter) == Err(result.error)
    ensures result.Ok? || result == Err(Io) ==> seen == old(input.pending)
  {
    hide Steady, Patient, OpenChunk;
    ghost var s := input.pending;
    var head := new byte[5];
    var outcome: Outcome<ObjectError>;
    outcome, seen := ReadPayload(input, head, 5);
    if outcome.Fail? {
      return Err(outcome.error), seen;
    }
    var kind := head[0];
    var sealed := FromBigEndian(head[1..5]);
    assert head[..] == head[..5] == s[..5] && s[..5][1..5] == s[1..5];
    if RecordLength(kind, sealed, counter).Err? {
      return Err(InvalidRecord), s;
    }
    outcome, seen := ReadPayload(input, buffer, sealed);
    if outcome.Fail? {
      return Err(outcome.error), HeadAndRest(s, seen);
    }
    var length := OpenInPlace(o, counter, kind, buffer, sealed);
    if length.None? {
      return Err(Authentication), s;
    }
    return Ok((kind, length.value)), s;
  }

  /** The input up to where it seemed to end, behind the head of a record. */
  ghost function HeadAndRest(s: Bytes, rest: Bytes): (seen: Bytes)
    requires |s| >= 5 && rest <= s[5..]
    ensures seen <= s && |seen| == 5 + |rest| && seen[..5] == s[..5] && seen[1..5] == s[1..5]
    ensures rest == s[5..] ==> seen == s
  {
    s[..5 + |rest|]
  }

  /** Nothing may follow the final record, as far as the reader tells. */
  method CheckEnd(input: Reader) returns (outcome: Outcome<ObjectError>)
    modifies input
    ensures Steady(old(input.script)) ==> outcome != Fail(Io)
    ensures outcome == Pass || outcome == Fail(TrailingData) || outcome == Fail(Io)
    ensures outcome == Pass && Patient(old(input.script)) ==> old(input.pending) == []
    ensures outcome == Fail(TrailingData) ==> old(input.pending) != []
  {
    hide Filled, Steady, Patient;
    FilledFacts(input.script, |input.pending|, 1);
    var extra := new byte[1];
    var more := ReadChunk(input, extra, 1);
    if more.Err? {
      return Fail(Io);
    }
    return if more.value != 0 then Fail(TrailingData) else Pass;
  }

  /** Whatever follows these bytes is read as records from number `counter` on, after `plain`. */
  ghost predicate Leads(o: Object, read: Bytes, plain: Bytes, counter: nat) {
    forall s: Bytes :: Unstream(o, read + s, 0) == After(plain, Unstream(o, s, counter))
  }

  lemma LeadsAt(o: Object, read: Bytes, plain: Bytes, counter: nat, s: Bytes)
    requires Leads(o, read, plain, counter)
    ensures Unstream(o, read + s, 0) == After(plain, Unstream(o, s, counter))
  {
  }

  lemma LeadsStart(o: Object)
    ensures Leads(o, [], [], 0)
  {
    hide Unstream, After;
    forall s: Bytes ensures Unstream(o, [] + s, 0) == After([], Unstream(o, s, 0)) {
      AfterNothing(Unstream(o, s, 0), s);
    }
  }

  lemma AfterNothing(staged: Staged, s: Bytes)
    ensures After([], staged) == staged && [] + s == s
  {
    assert [] + staged.plain == staged.plain;
  }

  /** Where a record ends does not depend on what follows it. */
  lemma RecordStands(o: Object, s: Bytes, counter: nat, more: Bytes)
    requires NextRecord(o, s, counter).Ok?
    ensures var (kind, chunk, rest) := NextRecord(o, s, counter).value;
            var record := s[..|s| - |rest|];
            s == record + rest && NextRecord(o, record + more, counter) == Ok((kind, chunk, more))
  {
    hide RecordLength, OpenChunk, FromBigEndian;
    var rest := NextRecord(o, s, counter).value.2;
    var record := s[..|s| - |rest|];
    var sealed := FromBigEndian(s[1..5]);
    var t := record + more;
    assert t[1..5] == s[1..5] && t[5..][..sealed] == s[5..][..sealed] && t[5..][sealed..] == more;
  }

  lemma LeadsOn(o: Object, read: Bytes, plain: Bytes, counter: nat, s: Bytes)
    requires Leads(o, read, plain, counter) && counter < MAX_CHUNKS
    requires NextRecord(o, s, counter).Ok? && NextRecord(o, s, counter).value.0 != FINAL
    ensures var (kind, chunk, rest) := NextRecord(o, s, counter).value;
            Leads(o, read + s[..|s| - |rest|], plain + chunk, counter + 1)
  {
    hide Unstream, NextRecord;
    var (kind, chunk, rest) := NextRecord(o, s, counter).value;
    var record := s[..|s| - |rest|];
    forall more: Bytes
      ensures Unstream(o, (read + record) + more, 0) == After(plain + chunk, Unstream(o, more, counter + 1))
    {
      RecordStands(o, s, counter, more);
      UnstreamStep(o, record + more, counter);
      assert (read + record) + more == read + (record + more);
      LeadsAt(o, read, plain, counter, record + more);
      assert plain + (chunk + Unstream(o, more, counter + 1).plain)
        == (plain + chunk) + Unstream(o, more, counter + 1).plain;
    }
  }

  /** The next record, and behind a final one the end. */
  method ReadNext(o: Object, input: Reader, buffer: array<byte>, counter: nat)
    returns (result: Result<(byte, nat), ObjectError>, ghost seen: Bytes)
    requires Tagged(o.cipher) && buffer.Length == RECORD_LEN && counter < MAX_CHUNKS
    modifies input, buffer
    ensures seen <= old(input.pending) && (Patient(old(input.script)) ==> seen == old(input.pending))
    ensures Patient(old(input.script)) && result.Ok? && result.value.0 != FINAL ==> Patient(input.script)
    ensures Steady(old(input.script)) ==>
            result != Err(Io) && (result.Ok? && result.value.0 != FINAL ==> Steady(input.script))
    ensures match result
            case Err(error) => error != Io ==> Unstream(o, seen, counter) == Staged(Fail(error), [])
            case Ok((kind, length)) =>
              && length <= buffer.Length
              && (kind == FINAL ==> Unstream(o, seen, counter) == Staged(Pass, buffer[..length]))
              && (kind != FINAL ==>
                    && length == CHUNK_LEN && seen == old(input.pending)
                    && NextRecord(o, seen, counter) == Ok((kind, buffer[..length], input.pending)))
  {
    hide Steady, Patient, Unstream, NextRecord;
    ghost var s := input.pending;
    result, seen := ReadRecord(o, input, buffer, counter);
    UnstreamStep(o, seen, counter);
    if result.Ok? && result.value.0 == FINAL {
      ghost var rest := input.pending;
      var end := CheckEnd(input);
      if end.Fail? {
        return Err(end.error), seen;
      }
      RecordStands(o, s, counter, []);
      seen := s[..|s| - |rest|];
      assert seen + [] == seen;
      UnstreamStep(o, seen, counter);
    }
  }

  lemma AtTheLimit(o: Object, read: Bytes, plain: Bytes, s: Bytes)
    requires Leads(o, read, plain, MAX_CHUNKS)
    ensures Unstream(o, read + s, 0) == Staged(Fail(ObjectTooLarge), plain)
  {
    hide Unstream, Leads;
    LeadsAt(o, read, plain, MAX_CHUNKS, s);
    NoMoreRecords(o, s);
    assert plain + [] == plain;
  }

  /**
   The verdict, and what is staged, are those of the input as far as the reader showed it: the first
   end it reports, final or not, is taken for the end of the container.
   */
  method DecryptRecords(o: Object, input: Reader, output: Sink)
    returns (result: Result<nat, ObjectError>, ghost seen: Bytes)
    requires Tagged(o.cipher)
    modifies input, output
    ensures seen <= old(input.pending) && (Patient(old(input.script)) ==> seen == old(input.pending))
    ensures var staged, start := Unstream(o, seen, 0), old(output.written);
            && start <= output.written <= start + staged.plain
            && (result.Ok? ==> staged.verdict == Pass && result.value == |staged.plain|)
            && (result.Ok? ==> output.written == start + staged.plain)
            && (result.Err? && result.error != Io ==>
                  staged.verdict == Fail(result.error) && output.written == start + staged.plain)
            && (result == Err(Io) ==> !Steady(old(input.script)) || old(output.room) < |staged.plain|)
            && (result.Err? && |staged.plain| <= old(output.room) ==> (|output.written| - |start|) % CHUNK_LEN == 0)
  {
    hide Steady, Patient, Unstream, NextRecord, Leads;
    ghost var s, start, space := input.pending, output.written, output.room;
    ghost var plain: Bytes := [];
    ghost var read: Bytes := [];
    var buffer := new byte[RECORD_LEN];
    var total := 0;
    LeadsStart(o);
    for counter := 0 to MAX_CHUNKS
      invariant total == counter * CHUNK_LEN == |plain| && buffer.Length == RECORD_LEN && fresh(buffer)
      invariant output.written == start + plain && total + output.room == space
      invariant s == read + input.pending && Leads(o, read, plain, counter)
      invariant Steady(old(input.script)) ==> Steady(input.script)
      invariant Patient(old(input.script)) ==> Patient(input.script)
    {
      ghost var here := input.pending;
      var next;
      next, seen := ReadNext(o, input, buffer, counter);
      LeadsAt(o, read, plain, counter, seen);
      StagedSoFar(start, plain, Unstream(o, seen, counter));
      ghost var now := read + seen;
      if next.Err? {
        return Err(next.error), now;
      }
      var (kind, length) := next.value;
      if kind != FINAL {
        UnstreamStep(o, here, counter);
        LeadsOn(o, read, plain, counter, here);
        RecordStands(o, here, counter, []);
        read := read + here[..|here| - |input.pending|];
        LeadsAt(o, read, plain + buffer[..length], counter + 1, input.pending);
        StagedSoFar(start, plain + buffer[..length], Unstream(o, input.pending, counter + 1));
      }
      plain := plain + buffer[..length];
      var ok := output.WriteAll(buffer[..length]);
      if !ok {
        return Err(Io), now;
      }
      total := total + length;
      if kind == FINAL {
        return Ok(total), now;
      }
    }
    AtTheLimit(o, read, plain, input.pending);
    return Err(ObjectTooLarge), s;
  }

  /** What is staged in the end begins with what has been staged so far. */
  lemma StagedSoFar(start: Bytes, plain: Bytes, more: Staged)
    ensures start <= start + plain <= start + After(plain, more).plain
    ensures more.plain == [] ==> After(plain, more).plain == plain
  {
    assert start + (plain + more.plain) == (start + plain) + more.plain;
  }

  lemma NoMoreRecords(o: Object, s: Bytes)
    ensures Unstream(o, s, MAX_CHUNKS) == Staged(Fail(ObjectTooLarge), [])
  {
  }

  lemma UnstreamStep(o: Object, s: Bytes, counter: nat)
    requires counter < MAX_CHUNKS
    ensures var staged, next := Unstream(o, s, counter), NextRecord(o, s, counter);
            && (next.Err? ==> staged == Staged(Fail(next.error), []))
            && (next.Ok? && next.value.0 == FINAL ==>
                  staged == if next.value.2 == [] then Staged(Pass, next.value.1) else Staged(Fail(TrailingData), []))
            && (next.Ok? && next.value.0 != FINAL ==>
                  staged == After(next.value.1, Unstream(o, next.value.2, counter + 1)))
  {
    hide NextRecord;
  }
}
