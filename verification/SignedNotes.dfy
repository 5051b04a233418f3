/** Signed notes and their text form (crates/hide-transparency/src/checkpoint.rs). */
module SignedNotes {
  import opened Bytes
  import opened Results
  import opened Cbor
  import Base64

  const MAX_ORIGIN_BYTES := 256
  const MAX_SIGNATURES := 32
  const MAX_NOTE_BYTES := 196608

  const NEWLINE: byte := 10
  const SPACE: byte := 32

  /** An em dash and a space, in UTF-8. */
  const DASH: Bytes := [0xe2, 0x80, 0x94, SPACE]

  type KeyId = s: Bytes | |s| == 4 witness Zeros(4)

  datatype NoteSignature = NoteSignature(name: Bytes, keyId: KeyId, signature: Bytes)

  datatype SignedNote = SignedNote(text: Bytes, signatures: seq<NoteSignature>)

  datatype NoteError = Malformed | WrongOrigin(found: Bytes) | Unsigned | BadSignature

  /** ASCII without spaces, control characters or `+`. */
  predicate ValidName(name: Bytes) {
    0 < |name| <= MAX_ORIGIN_BYTES && forall b :: b in name ==> NameByte(b)
  }

  predicate NameByte(b: byte) {
    0x21 <= b <= 0x7e && b != 43
  }

  // ---------------------------------------------------------------- writing

  /** One signature line without its newline. */
  function Line(s: NoteSignature): Bytes {
    DASH + (s.name + ([SPACE] + Base64.Encode(s.keyId + s.signature)))
  }

  function Block(signatures: seq<NoteSignature>): Bytes {
    if signatures == [] then [] else Line(signatures[0]) + ([NEWLINE] + Block(signatures[1..]))
  }

  function EncodeNote(note: SignedNote): Bytes {
    note.text + ([NEWLINE] + Block(note.signatures))
  }

  method Encode(note: SignedNote) returns (out: Bytes)
    ensures out == EncodeNote(note)
  {
    hide Line;
    out := note.text + [NEWLINE];
    assert note.signatures[0..] == note.signatures;
    for i := 0 to |note.signatures|
      invariant EncodeNote(note) == out + Block(note.signatures[i..])
    {
      assert note.signatures[i..][1..] == note.signatures[i + 1..];
      out := out + Line(note.signatures[i]) + [NEWLINE];
    }
  }

  // ---------------------------------------------------------------- reading

  /** Where the last two newlines in a row stand. */
  function LastBlank(s: Bytes): (i: Option<nat>)
    ensures i.Some? ==> i.value + 1 < |s| && s[i.value] == s[i.value + 1] == NEWLINE
  {
    if |s| < 2 then None
    else if s[|s| - 2] == NEWLINE && s[|s| - 1] == NEWLINE then Some(|s| - 2)
    else LastBlank(s[..|s| - 1])
  }

  /** The pieces between newlines; a newline at the very end starts no further piece. */
  function Lines(s: Bytes): seq<Bytes>
    decreases |s|
  {
    if s == [] then []
    else
      var i := FirstIndex(s, NEWLINE);
      if i == |s| then [s] else [s[..i]] + Lines(s[i + 1..])
  }

  /** A control character other than the newline. */
  predicate HasControl(s: Bytes) {
    exists i :: 0 <= i < |s| && s[i] != NEWLINE && ControlAt(s, i)
  }

  function ParseLine(line: Bytes): Option<NoteSignature> {
    if !(DASH <= line) then None
    else
      var rest := line[|DASH|..];
      var space := FirstIndex(rest, SPACE);
      if space == |rest| || !ValidName(rest[..space]) then None
      else
        match Base64.Decode(rest[space + 1..])
        case None => None
        case Some(raw) =>
          if |raw| < 5 then None else Some(NoteSignature(rest[..space], raw[..4], raw[4..]))
  }

  function ParseLines(lines: seq<Bytes>): (signatures: Option<seq<NoteSignature>>)
    ensures signatures.Some? ==> |signatures.value| == |lines|
  {
    if lines == [] then Some([])
    else
      match (ParseLines(lines[..|lines| - 1]), ParseLine(lines[|lines| - 1]))
      case (Some(signatures), Some(signature)) => Some(signatures + [signature])
      case _ => None
  }

  /** The text up to its last newline and the signature lines, if the bytes have that shape. */
  function SplitNote(s: Bytes): Option<(Bytes, seq<Bytes>)> {
    if |s| > MAX_NOTE_BYTES || !Utf8(s) || HasControl(s) || s == [] || s[|s| - 1] != NEWLINE then None
    else
      match LastBlank(s)
      case None => None
      case Some(i) => Some((s[..i + 1], Lines(s[i + 2..])))
  }

  function DecodeNote(s: Bytes): Result<SignedNote, NoteError> {
    match SplitNote(s)
    case None => Err(Malformed)
    case Some((text, lines)) =>
      match ParseLines(lines)
      case None => Err(Malformed)
      case Some(signatures) =>
        if |lines| > MAX_SIGNATURES || signatures == [] then Err(Malformed)
        else
          var note := SignedNote(text, signatures);
          if EncodeNote(note) != s then Err(Malformed) else Ok(note)
  }

  method Decode(s: Bytes) returns (result: Result<SignedNote, NoteError>)
    ensures result == DecodeNote(s)
  {
    var split := SplitNote(s);
    if split.None? {
      return Err(Malformed);
    }
    var (text, lines) := split.value;
    var signatures: seq<NoteSignature> := [];
    assert lines[..|lines|] == lines;
    for i := 0 to |lines|
      invariant ParseLines(lines[..i]) == Some(signatures) && i <= MAX_SIGNATURES
    {
      ParseLinesStep(lines, i);
      if |signatures| == MAX_SIGNATURES {
        return Err(Malformed);
      }
      var signature := ParseLine(lines[i]);
      if signature.None? {
        return Err(Malformed);
      }
      signatures := signatures + [signature.value];
    }
    if signatures == [] {
      return Err(Malformed);
    }
    var note := SignedNote(text, signatures);
    var again := Encode(note);
    return if again != s then Err(Malformed) else Ok(note);
  }

  lemma ParseLinesStep(lines: seq<Bytes>, i: nat)
    requires i < |lines|
    ensures ParseLines(lines[..i + 1]) ==
            match (ParseLines(lines[..i]), ParseLine(lines[i]))
            case (Some(signatures), Some(signature)) => Some(signatures + [signature])
            case _ => None
    ensures ParseLines(lines[..i + 1]).None? ==> ParseLines(lines).None?
  {
    hide ParseLine;
    assert lines[..i + 1][..i] == lines[..i];
    ParseLinesPrefix(lines, i + 1);
  }

  lemma {:induction false} ParseLinesPrefix(lines: seq<Bytes>, i: nat)
    requires i <= |lines|
    ensures ParseLines(lines).Some? ==> ParseLines(lines[..i]) == Some(ParseLines(lines).value[..i])
  {
    hide ParseLine;
    if i == |lines| {
      assert lines[..i] == lines;
      if ParseLines(lines).Some? {
        assert ParseLines(lines).value[..i] == ParseLines(lines).value;
      }
    } else {
      var front := lines[..|lines| - 1];
      ParseLinesPrefix(front, i);
      assert front[..i] == lines[..i];
      if ParseLines(lines).Some? {
        assert ParseLines(lines).value[..i] == ParseLines(front).value[..i];
      }
    }
  }

  // ---------------------------------------------------------------- the round trip

  /** What a note must be to survive being written and read. */
  predicate WellFormed(note: SignedNote) {
    && note.text != [] && note.text[|note.text| - 1] == NEWLINE
    && Utf8(note.text) && !HasControl(note.text)
    && 1 <= |note.signatures| <= MAX_SIGNATURES
    && (forall s :: s in note.signatures ==> ValidName(s.name) && s.signature != [])
    && |EncodeNote(note)| <= MAX_NOTE_BYTES
  }

  /** Bytes a signature line is made of: printable ASCII and the three bytes of the dash. */
  predicate LineByte(b: byte) {
    0x20 <= b <= 0x7e || b == 0xe2 || b == 0x80 || b == 0x94
  }

  lemma LineBytes(s: NoteSignature)
    requires ValidName(s.name)
    ensures forall b :: b in Line(s) ==> LineByte(b)
    ensures |Line(s)| > 4 && Line(s)[0] == 0xe2
  {
    Base64.EncodePrintable(s.keyId + s.signature);
    hide Base64.Encode;
  }

  lemma LineUtf8(s: NoteSignature)
    requires ValidName(s.name)
    ensures Utf8(Line(s))
  {
    var text := [SPACE] + (s.name + ([SPACE] + Base64.Encode(s.keyId + s.signature)));
    Base64.EncodePrintable(s.keyId + s.signature);
    hide Base64.Encode;
    forall i | 0 <= i < |text| ensures text[i] < 0x80 {
      assert text[i] in text;
    }
    AsciiUtf8(text);
    var line := Line(s);
    assert line[3..] == text;
    assert line[0] == 0xe2 && line[1] == 0x80 && line[2] == 0x94;
  }

  /** No line of the block is empty. */
  predicate NoBlank(s: Bytes) {
    && (s != [] ==> s[0] != NEWLINE && s[|s| - 1] == NEWLINE)
    && forall j :: 0 <= j < |s| - 1 ==> s[j] != NEWLINE || s[j + 1] != NEWLINE
  }

  predicate GoodNames(signatures: seq<NoteSignature>) {
    forall s :: s in signatures ==> ValidName(s.name)
  }

  lemma {:induction false} BlockShape(signatures: seq<NoteSignature>)
    requires GoodNames(signatures)
    ensures NoBlank(Block(signatures))
    ensures forall b :: b in Block(signatures) ==> LineByte(b) || b == NEWLINE
    ensures Utf8(Block(signatures))
    decreases |signatures|
  {
    if signatures != [] {
      var rest := Block(signatures[1..]);
      BlockShape(signatures[1..]);
      LineBytes(signatures[0]);
      LineUtf8(signatures[0]);
      AsciiUtf8([NEWLINE]);
      Utf8Append([NEWLINE], rest);
      Utf8Append(Line(signatures[0]), [NEWLINE] + rest);
      hide Utf8, Line, ValidName;
      NoBlankCons(Line(signatures[0]), rest);
    }
  }

  lemma NoBlankCons(line: Bytes, rest: Bytes)
    requires line != [] && NoBlank(rest) && forall b :: b in line ==> b != NEWLINE
    ensures NoBlank(line + ([NEWLINE] + rest))
  {
    var s := line + ([NEWLINE] + rest);
    assert s[0] == line[0] && line[0] in line;
    forall j | 0 <= j < |s| - 1 ensures s[j] != NEWLINE || s[j + 1] != NEWLINE {
      if j < |line| {
        assert s[j] == line[j] && line[j] in line;
      } else {
        assert s[j + 1] == rest[j - |line|];
        if j > |line| {
          assert s[j] == rest[j - |line| - 1];
        }
      }
    }
    assert s[|s| - 1] == NEWLINE;
  }

  function Bodies(signatures: seq<NoteSignature>): seq<Bytes> {
    seq(|signatures|, i requires 0 <= i < |signatures| => Line(signatures[i]))
  }

  lemma BodiesEnds(signatures: seq<NoteSignature>)
    requires signatures != []
    ensures Bodies(signatures) == [Line(signatures[0])] + Bodies(signatures[1..])
    ensures Bodies(signatures) == Bodies(signatures[..|signatures| - 1]) + [Line(signatures[|signatures| - 1])]
  {
    hide Line;
  }

  lemma LinesCons(line: Bytes, rest: Bytes)
    requires forall b :: b in line ==> b != NEWLINE
    ensures Lines(line + ([NEWLINE] + rest)) == [line] + Lines(rest)
  {
    var s := line + ([NEWLINE] + rest);
    assert forall j :: 0 <= j < |line| ==> s[j] == line[j] && line[j] in line;
    FirstIndexAt(s, NEWLINE, |line|);
    assert s[..|line|] == line && s[|line| + 1..] == rest;
  }

  lemma {:induction false} BlockLines(signatures: seq<NoteSignature>)
    requires GoodNames(signatures)
    ensures Lines(Block(signatures)) == Bodies(signatures)
    decreases |signatures|
  {
    hide Line, ValidName, Lines, Bodies;
    if signatures == [] {
      NoLines();
    } else {
      BlockLines(signatures[1..]);
      LineBytes(signatures[0]);
      LinesCons(Line(signatures[0]), Block(signatures[1..]));
      BodiesEnds(signatures);
    }
  }

  lemma NoLines()
    ensures Lines([]) == Bodies([])
  {
  }

  lemma LineRoundTrip(s: NoteSignature)
    requires ValidName(s.name) && s.signature != []
    ensures ParseLine(Line(s)) == Some(s)
  {
    hide Base64.Encode, Base64.Decode;
    var raw := s.keyId + s.signature;
    var encoded := Base64.Encode(raw);
    Base64.RoundTrip(raw);
    NameEnds(s.name, encoded);
    assert Line(s)[|DASH|..] == s.name + ([SPACE] + encoded);
    assert raw[..4] == s.keyId && raw[4..] == s.signature;
  }

  /** A name ends at the first space. */
  lemma NameEnds(name: Bytes, encoded: Bytes)
    requires ValidName(name)
    ensures var rest := name + ([SPACE] + encoded);
            && FirstIndex(rest, SPACE) == |name|
            && rest[..|name|] == name && rest[|name| + 1..] == encoded
  {
    var rest := name + ([SPACE] + encoded);
    assert forall j :: 0 <= j < |name| ==> rest[j] == name[j] && name[j] in name;
    FirstIndexAt(rest, SPACE, |name|);
  }

  lemma {:induction false} LinesRoundTrip(signatures: seq<NoteSignature>)
    requires forall s :: s in signatures ==> ValidName(s.name) && s.signature != []
    ensures ParseLines(Bodies(signatures)) == Some(signatures)
    decreases |signatures|
  {
    hide *;
    if signatures == [] {
      NothingParses();
    } else {
      var n := |signatures| - 1;
      LinesRoundTrip(signatures[..n]);
      LineRoundTrip(signatures[n]);
      BodiesEnds(signatures);
      ParseLinesSnoc(Bodies(signatures[..n]), Line(signatures[n]));
      assert signatures == signatures[..n] + [signatures[n]];
    }
  }

  lemma NothingParses()
    ensures ParseLines(Bodies([])) == Some([])
  {
  }

  lemma ParseLinesSnoc(lines: seq<Bytes>, line: Bytes)
    requires ParseLines(lines).Some? && ParseLine(line).Some?
    ensures ParseLines(lines + [line]) == Some(ParseLines(lines).value + [ParseLine(line).value])
  {
    hide ParseLine;
    assert (lines + [line])[..|lines|] == lines;
  }

  lemma {:induction false} LastBlankAt(s: Bytes, i: nat)
    requires i + 1 < |s| && s[i] == NEWLINE && s[i + 1] == NEWLINE
    requires forall j :: i < j < |s| - 1 ==> s[j] != NEWLINE || s[j + 1] != NEWLINE
    ensures LastBlank(s) == Some(i)
    decreases |s|
  {
    if i + 2 < |s| {
      LastBlankAt(s[..|s| - 1], i);
    }
  }

  lemma EncodedSplits(note: SignedNote)
    requires WellFormed(note)
    ensures SplitNote(EncodeNote(note)) == Some((note.text, Bodies(note.signatures)))
  {
    var block := Block(note.signatures);
    hide Block, Line, ValidName, Lines, Bodies, Utf8, HasControl, LastBlank, LineByte;
    assert GoodNames(note.signatures);
    BlockShape(note.signatures);
    BlockLines(note.signatures);
    AsciiUtf8([NEWLINE]);
    Utf8Append([NEWLINE], block);
    Utf8Append(note.text, [NEWLINE] + block);
    NoteHasNoControl(note.text, block);
    BlankAfterText(note.text, block);
    var s, i := EncodeNote(note), |note.text| - 1;
    assert s[..i + 1] == note.text && s[i + 2..] == block;
    if block != [] {
      assert s[|s| - 1] == block[|block| - 1];
    }
  }

  lemma BlankAfterText(text: Bytes, block: Bytes)
    requires text != [] && text[|text| - 1] == NEWLINE && NoBlank(block)
    ensures LastBlank(text + ([NEWLINE] + block)) == Some(|text| - 1)
  {
    var s, i := text + ([NEWLINE] + block), |text| - 1;
    forall j | i < j < |s| - 1 ensures s[j] != NEWLINE || s[j + 1] != NEWLINE {
      assert s[j + 1] == block[j - i - 1];
      if j > i + 1 {
        assert s[j] == block[j - i - 2];
      }
    }
    LastBlankAt(s, i);
  }

  lemma NoteHasNoControl(text: Bytes, block: Bytes)
    requires text != [] && text[|text| - 1] == NEWLINE && !HasControl(text)
    requires forall b :: b in block ==> LineByte(b) || b == NEWLINE
    ensures !HasControl(text + ([NEWLINE] + block))
  {
    var s := text + ([NEWLINE] + block);
    forall i | 0 <= i < |s| ensures s[i] == NEWLINE || !ControlAt(s, i) {
      if i < |text| {
        assert text[i] == NEWLINE || !ControlAt(text, i);
      } else if i > |text| {
        assert s[i] == block[i - |text| - 1] && s[i] in block;
      }
    }
  }

  /** A well-formed note is read back as it was written. */
  lemma NoteRoundTrip(note: SignedNote)
    requires WellFormed(note)
    ensures DecodeNote(EncodeNote(note)) == Ok(note)
  {
    EncodedSplits(note);
    LinesRoundTrip(note.signatures);
    hide SplitNote, ParseLines, EncodeNote, ValidName, Utf8, HasControl;
  }

  lemma {:induction false} Utf8Prefix(s: Bytes, i: nat)
    requires Utf8(s) && i < |s| && s[i] < 0x80
    ensures Utf8(s[..i + 1])
    decreases |s|
  {
    var n := CharWidth(s);
    if i < n {
      assert s[..i + 1][1..] == [];
    } else {
      Utf8Prefix(s[n..], i - n);
      assert CharWidth(s[..i + 1]) == n;
      assert s[..i + 1][n..] == s[n..][..i - n + 1];
    }
  }

  lemma {:induction false} ParsedLinesAreGood(lines: seq<Bytes>)
    requires ParseLines(lines).Some?
    ensures forall s :: s in ParseLines(lines).value ==> ValidName(s.name) && s.signature != []
  {
    if lines != [] {
      ParsedLinesAreGood(lines[..|lines| - 1]);
      hide ValidName, Base64.Decode;
    }
  }

  lemma SplitTextIsGood(s: Bytes)
    requires SplitNote(s).Some?
    ensures var text := SplitNote(s).value.0;
            && text != [] && text[|text| - 1] == NEWLINE
            && Utf8(text) && !HasControl(text) && |s| <= MAX_NOTE_BYTES
  {
    var text := SplitNote(s).value.0;
    Utf8Prefix(s, |text| - 1);
    hide Utf8, Lines;
    forall i | 0 <= i < |text| ensures text[i] == NEWLINE || !ControlAt(text, i) {
      assert s[i] == NEWLINE || !ControlAt(s, i);
    }
  }

  /** A note has one encoding, and reading yields only notes that survive being written again. */
  lemma NoteCanonical(s: Bytes)
    requires DecodeNote(s).Ok?
    ensures EncodeNote(DecodeNote(s).value) == s && WellFormed(DecodeNote(s).value)
  {
    hide SplitNote, ParseLines, EncodeNote, ValidName, Utf8, HasControl;
    SplitTextIsGood(s);
    ParsedLinesAreGood(SplitNote(s).value.1);
  }

  /** Exactly the well-formed notes survive the wire. */
  lemma SurvivesExactly(note: SignedNote)
    ensures DecodeNote(EncodeNote(note)) == Ok(note) <==> WellFormed(note)
  {
    if WellFormed(note) {
      NoteRoundTrip(note);
    }
    if DecodeNote(EncodeNote(note)) == Ok(note) {
      NoteCanonical(EncodeNote(note));
    }
    hide *;
  }
}
