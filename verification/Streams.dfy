/** Byte streams as `std::io` gives them: reads come up short, are interrupted, or fail. */
module Streams {
  import opened Bytes
  import opened Results

  /**
   How one call to `read` turns out. A count of zero is an end of input, which need not be final: a
   file can grow and a terminal can go on. Once a script is used up, reads give all they are asked.
   */
  datatype Event = Deliver(atMost: nat) | Interrupted | Broken

  /** A reader that is never broken. */
  predicate Steady(script: seq<Event>) {
    Broken !in script
  }

  /** A reader that reports the end of its input only when nothing is left. */
  predicate Patient(script: seq<Event>) {
    Deliver(0) !in script
  }

  function Min(a: nat, b: nat): nat {
    if a < b then a else b
  }

  /** What one read yields. */
  function Delivered(atMost: nat, available: nat, want: nat): (n: nat)
    ensures n <= available && n <= want
  {
    Min(atMost, Min(available, want))
  }

  /** How many bytes filling a buffer takes, unless the reader breaks, and the script after it. */
  function Filled(script: seq<Event>, available: nat, want: nat): (filled: (Option<nat>, seq<Event>))
    ensures filled.0.Some? ==> filled.0.value <= available && filled.0.value <= want
    decreases |script|
  {
    if want == 0 then (Some(0), script)
    else if script == [] then (Some(Min(available, want)), [])
    else
      match script[0]
      case Interrupted => Filled(script[1..], available, want)
      case Broken => (None, script[1..])
      case Deliver(atMost) =>
        var n := Delivered(atMost, available, want);
        if n == 0 then (Some(0), script[1..])
        else
          var (more, after) := Filled(script[1..], available - n, want - n);
          (if more.None? then None else Some(n + more.value), after)
  }

  /** A steady reader keeps steady; a patient one fills the buffer as far as its input goes. */
  lemma {:induction false} FilledFacts(script: seq<Event>, available: nat, want: nat)
    ensures var (count, after) := Filled(script, available, want);
            && (Steady(script) ==> count.Some? && Steady(after))
            && (Patient(script) ==> Patient(after) && (count.Some? ==> count.value == Min(available, want)))
    decreases |script|
  {
    if want > 0 && script != [] && !script[0].Broken? {
      var n := if script[0].Deliver? then Delivered(script[0].atMost, available, want) else 0;
      FilledFacts(script[1..], available - n, want - n);
      assert Patient(script) ==> script[0] != Deliver(0);
    }
  }

  datatype ReadError = WasInterrupted | Failed

  /** How the next read turns out. */
  function NextRead(script: seq<Event>, available: nat, want: nat): (result: Result<nat, ReadError>)
    ensures result.Ok? ==> result.value <= available && result.value <= want
  {
    if script == [] then Ok(Min(available, want))
    else
      match script[0]
      case Interrupted => Err(WasInterrupted)
      case Broken => Err(Failed)
      case Deliver(atMost) => Ok(Delivered(atMost, available, want))
  }

  function AfterRead(script: seq<Event>): seq<Event> {
    if script == [] then [] else script[1..]
  }

  class Reader {
    var pending: Bytes
    var script: seq<Event>

    constructor (content: Bytes, events: seq<Event>)
      ensures pending == content && script == events
    {
      pending, script := content, events;
    }

    /** One `read` into `buffer[from..upto]`. */
    method Read(buffer: array<byte>, from: nat, upto: nat) returns (result: Result<nat, ReadError>)
      requires from < upto <= buffer.Length
      modifies this, buffer
      ensures script == AfterRead(old(script)) && result == NextRead(old(script), |old(pending)|, upto - from)
      ensures result.Err? ==> pending == old(pending) && buffer[..] == old(buffer[..])
      ensures result.Ok? ==>
                && pending == old(pending)[result.value..]
                && buffer[..from] == old(buffer[..from])
                && buffer[from..from + result.value] == old(pending)[..result.value]
    {
      var n := Min(|pending|, upto - from);
      if script != [] {
        var event := script[0];
        script := script[1..];
        if event.Interrupted? {
          return Err(WasInterrupted);
        }
        if event.Broken? {
          return Err(Failed);
        }
        n := Delivered(event.atMost, |pending|, upto - from);
      }
      var got := pending[..n];
      pending := pending[n..];
      forall i | 0 <= i < n {
        buffer[from + i] := got[i];
      }
      assert buffer[from..from + n] == got;
      return Ok(n);
    }
  }

  class Sink {
    var written: Bytes
    /** How many more bytes can be written before the device is full. */
    var room: nat

    constructor (capacity: nat)
      ensures written == [] && room == capacity
    {
      written, room := [], capacity;
    }

    /** Writes everything, or as much as fits and fails. */
    method WriteAll(data: Bytes) returns (ok: bool)
      modifies this
      ensures ok == (|data| <= old(room))
      ensures written == old(written) + (if ok then data else data[..old(room)])
      ensures room == if ok then old(room) - |data| else 0
    {
      if |data| <= room {
        written, room := written + data, room - |data|;
        return true;
      }
      written, room := written + data[..room], 0;
      return false;
    }
  }

  /** `length` bytes have been taken already. */
  ghost function Onwards(length: nat, more: (Option<nat>, seq<Event>)): (Option<nat>, seq<Event>) {
    (if more.0.None? then None else Some(length + more.0.value), more.1)
  }

  /** What the next read does to a filling. */
  lemma FilledStep(script: seq<Event>, available: nat, want: nat, length: nat)
    requires want > 0
    ensures Onwards(length, Filled(script, available, want))
         == match NextRead(script, available, want)
            case Err(WasInterrupted) => Onwards(length, Filled(AfterRead(script), available, want))
            case Err(Failed) => (None, AfterRead(script))
            case Ok(n) =>
              if n == 0 then (Some(length), AfterRead(script))
              else Onwards(length + n, Filled(AfterRead(script), available - n, want - n))
  {
  }

  lemma FilledUp(script: seq<Event>, available: nat, length: nat)
    ensures Onwards(length, Filled(script, available, 0)) == (Some(length), script)
    ensures Onwards(0, Filled(script, available, length)) == Filled(script, available, length)
  {
  }

  /** Fills `buffer[..want]` until it is full or the reader reports an end. */
  method ReadChunk(reader: Reader, buffer: array<byte>, want: nat) returns (result: Result<nat, ReadError>)
    requires want <= buffer.Length
    modifies reader, buffer
    ensures var (count, after) := Filled(old(reader.script), |old(reader.pending)|, want);
            && reader.script == after
            && result == if count.Some? then Ok(count.value) else Err(Failed)
    ensures result.Ok? ==>
              && reader.pending == old(reader.pending)[result.value..]
              && buffer[..result.value] == old(reader.pending)[..result.value]
  {
    hide Filled, NextRead, Onwards, AfterRead;
    var length := 0;
    ghost var whole := Filled(reader.script, |reader.pending|, want);
    FilledUp(reader.script, |reader.pending|, want);
    while length < want
      invariant 0 <= length <= want && length <= |old(reader.pending)|
      invariant reader.pending == old(reader.pending)[length..]
      invariant buffer[..length] == old(reader.pending)[..length]
      invariant whole == Onwards(length, Filled(reader.script, |reader.pending|, want - length))
      decreases |reader.script|, want - length
    {
      FilledStep(reader.script, |reader.pending|, want - length, length);
      ScriptShrinks(reader.script, |reader.pending|, want - length);
      var read := reader.Read(buffer, length, want);
      if read.Err? {
        if read.error == WasInterrupted {
          continue;
        }
        return Err(Failed);
      }
      if read.value == 0 {
        return Ok(length);
      }
      JoinRead(old(reader.pending), length, read.value);
      assert buffer[..length + read.value] == buffer[..length] + buffer[length..length + read.value];
      length := length + read.value;
    }
    FilledUp(reader.script, |reader.pending|, length);
    return Ok(length);
  }

  lemma ScriptShrinks(script: seq<Event>, available: nat, want: nat)
    ensures |AfterRead(script)| < |script|
            || (script == [] && AfterRead(script) == [] && NextRead(script, available, want).Ok?)
  {
  }

  lemma JoinRead(s: Bytes, length: nat, n: nat)
    requires length + n <= |s|
    ensures s[..length] + s[length..][..n] == s[..length + n]
    ensures s[length..][n..] == s[length + n..]
  {
  }
}
