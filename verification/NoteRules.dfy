/** UTF-8 by its characters, and exactly which notes are read (crates/hide-transparency/src/checkpoint.rs). */
module NoteRules {
  import opened Bytes
  import opened Cbor
  import opened Results
  import opened SignedNotes
  import Base64

  // ---------------------------------------------------------------- UTF-8

  /** A Unicode scalar value: any code point but the surrogates. */
  type Scalar = c: int | 0 <= c <= 0x10ffff && !(0xd800 <= c <= 0xdfff)

  /** The bytes of one character (RFC 3629, section 3). */
  function CharForm(c: Scalar): (s: Bytes)
    ensures 1 <= |s| <= 4
  {
    if c < 0x80 then [c]
    else if c < 0x800 then [0xc0 + c / 64, 0x80 + c % 64]
    else if c < 0x1_0000 then [0xe0 + c / 4096, 0x80 + c / 64 % 64, 0x80 + c % 64]
    else [0xf0 + c / 262144, 0x80 + c / 4096 % 64, 0x80 + c / 64 % 64, 0x80 + c % 64]
  }

  function TextOf(characters: seq<Scalar>): Bytes {
    if characters == [] then [] else CharForm(characters[0]) + TextOf(characters[1..])
  }

  lemma TwoTails(c: int)
    requires 0x800 <= c < 0x1_0000
    ensures 0 <= c / 4096 <= 15 && c == c / 4096 * 4096 + c / 64 % 64 * 64 + c % 64
  {
  }

  lemma ThreeTails(c: int)
    requires 0x1_0000 <= c <= 0x10ffff
    ensures 0 <= c / 262144 <= 4
    ensures c == c / 262144 * 262144 + c / 4096 % 64 * 4096 + c / 64 % 64 * 64 + c % 64
  {
  }

  lemma WidthOfForm(c: Scalar, rest: Bytes)
    ensures CharWidth(CharForm(c) + rest) == |CharForm(c)|
  {
    if 0x800 <= c < 0x1_0000 {
      TwoTails(c);
    } else if c >= 0x1_0000 {
      ThreeTails(c);
    }
  }

  lemma Sixty4(q: int, r: int)
    requires 0 <= q && 0 <= r < 64
    ensures (q * 64 + r) / 64 == q && (q * 64 + r) % 64 == r
  {
  }

  /** The digits of a number to the base 64. */
  lemma Digits64(a: int, b: int, d: int, e: int)
    requires 0 <= a && 0 <= b < 64 && 0 <= d < 64 && 0 <= e < 64
    ensures var c := ((a * 64 + b) * 64 + d) * 64 + e;
            c / 262144 == a && c / 4096 % 64 == b && c / 64 % 64 == d && c % 64 == e
  {
    var x := a * 64 + b;
    var y := x * 64 + d;
    var c := y * 64 + e;
    Sixty4(a, b);
    Sixty4(x, d);
    Sixty4(y, e);
    assert c / 4096 == c / 64 / 64 && c / 262144 == c / 4096 / 64;
  }

  lemma FormOfWidth(s: Bytes) returns (c: Scalar)
    requires s != [] && CharWidth(s) > 0
    ensures CharForm(c) == s[..CharWidth(s)]
  {
    var n := CharWidth(s);
    if n == 1 {
      c := s[0];
      assert s[..1] == [s[0]];
    } else if n == 2 {
      c := TwoForm(s[0] - 0xc0, s[1] - 0x80);
      assert s[..2] == [s[0], s[1]];
    } else if n == 3 {
      c := ThreeForm(s[0] - 0xe0, s[1] - 0x80, s[2] - 0x80);
      assert s[..3] == [s[0], s[1], s[2]];
    } else {
      c := FourForm(s[0] - 0xf0, s[1] - 0x80, s[2] - 0x80, s[3] - 0x80);
      assert s[..4] == [s[0], s[1], s[2], s[3]];
    }
    hide CharForm;
  }

  lemma TwoForm(a: int, b: int) returns (c: Scalar)
    requires 2 <= a < 32 && 0 <= b < 64
    ensures CharForm(c) == [0xc0 + a, 0x80 + b]
  {
    c := a * 64 + b;
    Sixty4(a, b);
  }

  lemma ThreeForm(a: int, b: int, d: int) returns (c: Scalar)
    requires 0 <= a < 16 && 0 <= b < 64 && 0 <= d < 64
    requires (a == 0 ==> b >= 32) && (a == 13 ==> b < 32)
    ensures CharForm(c) == [0xe0 + a, 0x80 + b, 0x80 + d]
  {
    Digits64(0, a, b, d);
    c := (a * 64 + b) * 64 + d;
    assert c / 4096 == a by { Sixty4(a, b); Sixty4(a * 64 + b, d); }
  }

  lemma FourForm(a: int, b: int, d: int, e: int) returns (c: Scalar)
    requires 0 <= a <= 4 && 0 <= b < 64 && 0 <= d < 64 && 0 <= e < 64
    requires (a == 0 ==> b >= 16) && (a == 4 ==> b < 16)
    ensures CharForm(c) == [0xf0 + a, 0x80 + b, 0x80 + d, 0x80 + e]
  {
    Digits64(a, b, d, e);
    c := ((a * 64 + b) * 64 + d) * 64 + e;
  }

  ghost predicate IsText(s: Bytes) {
    exists characters :: s == TextOf(characters)
  }

  /** Bytes are UTF-8 if and only if they are the bytes of some characters. */
  lemma Utf8Exactly(s: Bytes)
    ensures Utf8(s) <==> IsText(s)
  {
    if Utf8(s) {
      var characters := Characters(s);
    }
    if characters :| s == TextOf(characters) {
      TextIsUtf8(characters);
    }
  }

  lemma {:induction false} TextIsUtf8(characters: seq<Scalar>)
    ensures Utf8(TextOf(characters))
    decreases |characters|
  {
    hide CharForm, CharWidth;
    if characters != [] {
      var first, rest := CharForm(characters[0]), TextOf(characters[1..]);
      TextIsUtf8(characters[1..]);
      WidthOfForm(characters[0], rest);
      assert (first + rest)[|first|..] == rest;
    }
  }

  lemma {:induction false} Characters(s: Bytes) returns (characters: seq<Scalar>)
    requires Utf8(s)
    ensures s == TextOf(characters)
    decreases |s|
  {
    hide CharForm, CharWidth;
    characters := [];
    if s != [] {
      var n := CharWidth(s);
      var c := FormOfWidth(s);
      var more := Characters(s[n..]);
      characters := [c] + more;
      assert characters[1..] == more && s == s[..n] + s[n..];
    }
  }

  // ---------------------------------------------------------------- notes

  /** A line: an em dash, the name and the base64 of key id and signature, each behind a space. */
  function LineForm(line: NoteSignature): Bytes {
    [0xe2, 0x80, 0x94, 0x20] + line.name + [0x20] + Base64.Encode(line.keyId + line.signature) + [0x0a]
  }

  function LinesForm(lines: seq<NoteSignature>): Bytes {
    if lines == [] then [] else LineForm(lines[0]) + LinesForm(lines[1..])
  }

  /** The text, an empty line, and the signature lines. */
  function NoteForm(note: SignedNote): Bytes {
    note.text + [0x0a] + LinesForm(note.signatures)
  }

  /** Printable ASCII but for the space and `+`, and not too long. */
  predicate LegalName(name: Bytes) {
    1 <= |name| <= 256 && forall i :: 0 <= i < |name| ==> 0x21 <= name[i] <= 0x7e && name[i] != 0x2b
  }

  /** Characters, of which the last is a newline, and no control character but newlines. */
  ghost predicate LegalText(text: Bytes) {
    && text != [] && text[|text| - 1] == 0x0a
    && IsText(text)
    && NoControl(text)
  }

  predicate NoControl(text: Bytes) {
    && (forall i :: 0 <= i < |text| ==> (text[i] >= 32 || text[i] == 0x0a) && text[i] != 127)
    && forall i :: 0 <= i < |text| - 1 && text[i] == 0xc2 ==> text[i + 1] < 0x80 || text[i + 1] > 0x9f
  }

  ghost predicate LegalNote(note: SignedNote) {
    && LegalText(note.text)
    && 1 <= |note.signatures| <= 32
    && (forall i :: 0 <= i < |note.signatures| ==>
          LegalName(note.signatures[i].name) && note.signatures[i].signature != [])
    && |NoteForm(note)| <= 196608
  }

  lemma {:induction false} LinesAreForms(lines: seq<NoteSignature>)
    ensures Block(lines) == LinesForm(lines)
    decreases |lines|
  {
    hide Base64.Encode;
    if lines != [] {
      LinesAreForms(lines[1..]);
    }
  }

  lemma NoteIsForm(note: SignedNote)
    ensures EncodeNote(note) == NoteForm(note)
  {
    LinesAreForms(note.signatures);
    hide Block, LinesForm;
  }

  lemma NameExactly(name: Bytes)
    ensures ValidName(name) <==> LegalName(name)
  {
    if ValidName(name) {
      assert forall i :: 0 <= i < |name| ==> name[i] in name;
    }
  }

  lemma TextExactly(text: Bytes)
    ensures LegalText(text)
       <==> text != [] && text[|text| - 1] == NEWLINE && Utf8(text) && !HasControl(text)
  {
    Utf8Exactly(text);
    hide Utf8, IsText;
    assert HasControl(text) <==> !NoControl(text) by { ControlExactly(text); }
    hide HasControl, NoControl;
  }

  lemma ControlExactly(text: Bytes)
    ensures HasControl(text) <==> !NoControl(text)
  {
    if NoControl(text) {
      forall i | 0 <= i < |text| ensures text[i] == NEWLINE || !ControlAt(text, i) {
      }
    } else {
      var i :| 0 <= i < |text|
        && ((text[i] < 32 && text[i] != 10) || text[i] == 127
            || (text[i] == 0xc2 && i + 1 < |text| && 0x80 <= text[i + 1] <= 0x9f));
      assert ControlAt(text, i);
    }
  }

  lemma WellFormedExactly(note: SignedNote)
    ensures WellFormed(note) <==> LegalNote(note)
  {
    hide EncodeNote, NoteForm, Utf8, HasControl, LegalText, ValidName, LegalName;
    TextExactly(note.text);
    NoteIsForm(note);
    forall i | 0 <= i < |note.signatures|
      ensures ValidName(note.signatures[i].name) <==> LegalName(note.signatures[i].name)
    {
      NameExactly(note.signatures[i].name);
    }
  }

  /** Bytes are read as a note if and only if the note is legal and they are its one form. */
  lemma DecodedExactly(s: Bytes, note: SignedNote)
    ensures DecodeNote(s) == Ok(note) <==> LegalNote(note) && s == NoteForm(note)
  {
    hide DecodeNote, EncodeNote, WellFormed, LegalNote, NoteForm;
    WellFormedExactly(note);
    NoteIsForm(note);
    if DecodeNote(s) == Ok(note) {
      NoteCanonical(s);
    }
    if WellFormed(note) {
      NoteRoundTrip(note);
    }
  }
}
