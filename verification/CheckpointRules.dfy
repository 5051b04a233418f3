/** Exactly which notes are accepted, in terms of the note alone (crates/hide-transparency/src/checkpoint.rs). */
module CheckpointRules {
  import opened Bytes
  import opened Checkpoints
  import opened FiniteSets
  import opened Hashing
  import opened Results
  import opened SignedNotes
  import opened Signing
  import Base64

  /** The line names this key: by its name, and by the first four bytes of a hash of name and key. */
  predicate Names(c: Crypto, line: NoteSignature, w: Witness) {
    line.name == w.name
    && line.keyId == c.hash(w.name + [0x0a, 0xff] + Ascii("HIDE/1.0 hide-sign") + w.key)[..4]
  }

  /** The line's signature is one by this key over this text, in the context of checkpoints. */
  predicate Signs(c: Crypto, line: NoteSignature, text: Bytes, key: Bytes) {
    |line.signature| == 3373 && c.checks(key, U64(19) + Ascii("HIDE/1.0 checkpoint") + text, line.signature)
  }

  /** No line that names the key is without its signature. */
  predicate NoneFails(c: Crypto, note: SignedNote, w: Witness) {
    forall i :: 0 <= i < |note.signatures| && Names(c, note.signatures[i], w) ==>
      Signs(c, note.signatures[i], note.text, w.key)
  }

  predicate HasLine(c: Crypto, note: SignedNote, w: Witness) {
    exists i :: 0 <= i < |note.signatures| && Names(c, note.signatures[i], w)
  }

  /** Neither the name nor the key id of the one is that of the other. */
  predicate ToldApart(c: Crypto, a: Witness, b: Witness) {
    a.name != b.name
    && c.hash(a.name + [0x0a, 0xff] + Ascii("HIDE/1.0 hide-sign") + a.key)[..4]
       != c.hash(b.name + [0x0a, 0xff] + Ascii("HIDE/1.0 hide-sign") + b.key)[..4]
  }

  /** The witness at `p` shares no name or key id with the log or an earlier one. */
  predicate First(c: Crypto, log: Witness, witnesses: seq<Witness>, p: nat)
    requires p < |witnesses|
  {
    ToldApart(c, log, witnesses[p]) && forall q :: 0 <= q < p ==> ToldApart(c, witnesses[q], witnesses[p])
  }

  /** How many witnesses of the list have a line. */
  function WithLine(c: Crypto, note: SignedNote, witnesses: seq<Witness>): set<nat> {
    set p: nat | p < |witnesses| && HasLine(c, note, witnesses[p])
  }

  // ---------------------------------------------------------------- the model's own terms

  lemma NamesIsClaims(c: Crypto, line: NoteSignature, w: Witness)
    ensures Names(c, line, w) <==> Claims(c, line, w)
  {
    assert w.name + [NEWLINE] + SIGNATURE_TYPE + w.key == w.name + [0x0a, 0xff] + Ascii("HIDE/1.0 hide-sign") + w.key;
  }

  lemma SignsIsVouches(c: Crypto, note: SignedNote, line: NoteSignature, w: Witness)
    ensures Signs(c, line, note.text, w.key) <==> Vouches(c, note, line, w)
  {
    assert Bind(CHECKPOINT_CONTEXT, note.text) == U64(19) + Ascii("HIDE/1.0 checkpoint") + note.text;
  }

  lemma ApartIsTags(c: Crypto, a: Witness, b: Witness)
    ensures ToldApart(c, a, b) <==> TagOf(c, a).0 != TagOf(c, b).0 && TagOf(c, a).1 != TagOf(c, b).1
  {
    assert a.name + [NEWLINE] + SIGNATURE_TYPE + a.key == a.name + [0x0a, 0xff] + Ascii("HIDE/1.0 hide-sign") + a.key;
    assert b.name + [NEWLINE] + SIGNATURE_TYPE + b.key == b.name + [0x0a, 0xff] + Ascii("HIDE/1.0 hide-sign") + b.key;
  }

  lemma SignedByExactly(c: Crypto, note: SignedNote, w: Witness)
    ensures SignedBy(c, note, w) == if NoneFails(c, note, w) then Ok(HasLine(c, note, w)) else Err(BadSignature)
  {
    hide Names, Signs, Claims, Vouches;
    forall i | 0 <= i < |note.signatures|
      ensures Names(c, note.signatures[i], w) <==> Claims(c, note.signatures[i], w)
      ensures Signs(c, note.signatures[i], note.text, w.key) <==> Vouches(c, note, note.signatures[i], w)
    {
      NamesIsClaims(c, note.signatures[i], w);
      SignsIsVouches(c, note, note.signatures[i], w);
    }
  }

  // ---------------------------------------------------------------- an accepted note has no failing line

  lemma {:induction false} TagsApart(
      c: Crypto, log: Witness, witnesses: seq<Witness>, positions: seq<nat>, p: nat)
    requires p < |witnesses| && First(c, log, witnesses, p) && AllBelow(positions, p)
    requires AllBelow(positions, |witnesses|)
    ensures !Listed(Tags(c, log, witnesses, positions), TagOf(c, witnesses[p]))
    decreases |positions|
  {
    hide TagOf, ToldApart;
    ApartIsTags(c, log, witnesses[p]);
    if positions != [] {
      var n := |positions| - 1;
      ApartIsTags(c, witnesses[positions[n]], witnesses[p]);
      TagsApart(c, log, witnesses, positions[..n], p);
    }
  }

  lemma {:induction false} CountedHasNoFailure(
      c: Crypto, note: SignedNote, log: Witness, witnesses: seq<Witness>, k: nat, p: nat)
    requires p < k <= |witnesses| && First(c, log, witnesses, p) && Counted(c, note, log, witnesses, k).Ok?
    ensures NoneFails(c, note, witnesses[p])
    decreases k
  {
    hide SignedBy, Listed, Tags, TagOf, NoneFails, First;
    if p == k - 1 {
      TagsApart(c, log, witnesses, Counted(c, note, log, witnesses, p).value, p);
      SignedByExactly(c, note, witnesses[p]);
    } else {
      CountedHasNoFailure(c, note, log, witnesses, k - 1, p);
    }
  }

  /**
   A line that names the log, or a listed witness who shares no name or key id with the log or an
   earlier one, and does not carry its signature, is never skipped: with it, no note is accepted.
   */
  lemma NoFailingLine(c: Crypto, s: Bytes, log: Witness, witnesses: seq<Witness>, threshold: nat)
    requires Witnessed(c, s, log, witnesses, threshold).Ok?
    ensures DecodeNote(s).Ok? && NoneFails(c, DecodeNote(s).value, log)
    ensures forall p :: 0 <= p < |witnesses| && First(c, log, witnesses, p) ==>
              NoneFails(c, DecodeNote(s).value, witnesses[p])
  {
    hide DecodeNote, ParseText, SignedBy, Counted, First, NoneFails;
    var note := DecodeNote(s).value;
    SignedByExactly(c, note, log);
    forall p | 0 <= p < |witnesses| && First(c, log, witnesses, p)
      ensures NoneFails(c, note, witnesses[p])
    {
      CountedHasNoFailure(c, note, log, witnesses, |witnesses|, p);
    }
  }

  // ---------------------------------------------------------------- exactly the notes that are accepted

  /** What a note must be to be accepted for `cp`, when the listed witnesses are told apart. */
  predicate Endorsed(c: Crypto, note: SignedNote, cp: Checkpoint, log: Witness, witnesses: seq<Witness>,
                     threshold: nat)
  {
    && cp.origin == log.name && ValidName(log.name)
    && note.text == cp.origin + [10] + Base64.Decimal(cp.size) + [10] + Base64.Encode(cp.root) + [10]
    && HasLine(c, note, log) && NoneFails(c, note, log)
    && (forall p :: 0 <= p < |witnesses| ==> NoneFails(c, note, witnesses[p]))
    && |WithLine(c, note, witnesses)| >= threshold
  }

  /** Up to `k`, exactly the witnesses with a line are counted, unless a line fails. */
  lemma {:induction false} CountedExactly(
      c: Crypto, note: SignedNote, log: Witness, witnesses: seq<Witness>, k: nat)
    requires k <= |witnesses| && forall p :: 0 <= p < |witnesses| ==> First(c, log, witnesses, p)
    ensures var counted := Counted(c, note, log, witnesses, k);
            if forall p :: 0 <= p < k ==> NoneFails(c, note, witnesses[p])
            then counted.Ok? && |counted.value| == |WithLine(c, note, witnesses[..k])|
            else counted == Err(BadSignature)
    decreases k
  {
    hide SignedBy, Listed, Tags, TagOf, NoneFails, HasLine, First;
    if k > 0 {
      CountedExactly(c, note, log, witnesses, k - 1);
      SignedByExactly(c, note, witnesses[k - 1]);
      OneMore(c, note, witnesses, k);
      if Counted(c, note, log, witnesses, k - 1).Ok? {
        TagsApart(c, log, witnesses, Counted(c, note, log, witnesses, k - 1).value, k - 1);
      }
    } else {
      assert WithLine(c, note, witnesses[..0]) == {};
    }
  }

  lemma OneMore(c: Crypto, note: SignedNote, witnesses: seq<Witness>, k: nat)
    requires 0 < k <= |witnesses|
    ensures |WithLine(c, note, witnesses[..k])|
         == |WithLine(c, note, witnesses[..k - 1])| + if HasLine(c, note, witnesses[k - 1]) then 1 else 0
  {
    hide HasLine;
    var before, after := WithLine(c, note, witnesses[..k - 1]), WithLine(c, note, witnesses[..k]);
    assert forall p :: 0 <= p < k - 1 ==> witnesses[..k - 1][p] == witnesses[..k][p];
    if HasLine(c, note, witnesses[k - 1]) {
      assert after == before + {k - 1};
    } else {
      assert after == before;
    }
  }

  /**
   Of a list whose members share no name or key id with the log or each other: bytes are accepted for
   a checkpoint if and only if they are the one form of a well-formed note over its three lines, in
   which every line that names the log or a witness is signed by it, the log has such a line, and so
   have at least `threshold` witnesses.
   */
  lemma AcceptedExactly(c: Crypto, s: Bytes, cp: Checkpoint, log: Witness, witnesses: seq<Witness>, threshold: nat)
    requires forall p :: 0 <= p < |witnesses| ==> First(c, log, witnesses, p)
    ensures Witnessed(c, s, log, witnesses, threshold) == Ok(cp)
       <==> exists note :: WellFormed(note) && s == EncodeNote(note) && Endorsed(c, note, cp, log, witnesses, threshold)
  {
    hide DecodeNote, EncodeNote, WellFormed, ParseText, SignedBy, Counted, First, NoneFails, HasLine, Text, ValidName;
    if Witnessed(c, s, log, witnesses, threshold) == Ok(cp) {
      var note := DecodeNote(s).value;
      NoteCanonical(s);
      ParsedText(note.text);
      JudgedExactly(c, note, cp, log, witnesses, threshold);
    }
    if note :| WellFormed(note) && s == EncodeNote(note) && Endorsed(c, note, cp, log, witnesses, threshold) {
      NoteRoundTrip(note);
      TextInBytes(cp);
      TextRoundTrip(cp);
      JudgedExactly(c, note, cp, log, witnesses, threshold);
    }
  }

  /** And the reason for every refusal: of such a list, a note is judged by the first of these that applies. */
  lemma VerdictExactly(c: Crypto, s: Bytes, log: Witness, witnesses: seq<Witness>, threshold: nat)
    requires forall p :: 0 <= p < |witnesses| ==> First(c, log, witnesses, p)
    ensures DecodeNote(s).Err? ==> Witnessed(c, s, log, witnesses, threshold) == Err(Malformed)
    ensures DecodeNote(s).Ok? && ParseText(DecodeNote(s).value.text).Err? ==>
              Witnessed(c, s, log, witnesses, threshold) == Err(Malformed)
    ensures DecodeNote(s).Ok? && ParseText(DecodeNote(s).value.text).Ok? ==>
              var note := DecodeNote(s).value;
              var cp := ParseText(note.text).value;
              Witnessed(c, s, log, witnesses, threshold)
              == if cp.origin != log.name then Err(WrongOrigin(cp.origin))
                 else if !NoneFails(c, note, log) then Err(BadSignature)
                 else if !HasLine(c, note, log) then Err(Unsigned)
                 else if exists p :: 0 <= p < |witnesses| && !NoneFails(c, note, witnesses[p]) then Err(BadSignature)
                 else if |WithLine(c, note, witnesses)| < threshold then Err(Unsigned)
                 else Ok(cp)
  {
    DecodeErrors(s);
    hide DecodeNote, ParseText, SignedBy, Counted, First, NoneFails, HasLine;
    if DecodeNote(s).Ok? && ParseText(DecodeNote(s).value.text).Ok? {
      SignedByExactly(c, DecodeNote(s).value, log);
      CountedExactly(c, DecodeNote(s).value, log, witnesses, |witnesses|);
      assert witnesses[..|witnesses|] == witnesses;
    }
  }

  lemma DecodeErrors(s: Bytes)
    ensures DecodeNote(s).Err? ==> DecodeNote(s) == Err(Malformed)
    ensures DecodeNote(s).Ok? && ParseText(DecodeNote(s).value.text).Err? ==>
              ParseText(DecodeNote(s).value.text) == Err(Malformed)
  {
    hide SplitNote, ParseLines, EncodeNote, ValidName, Base64.Decode, Base64.ParseU64, Text, Lines;
  }

  lemma TextInBytes(cp: Checkpoint)
    ensures Text(cp) == cp.origin + [10] + Base64.Decimal(cp.size) + [10] + Base64.Encode(cp.root) + [10]
  {
    hide Base64.Decimal, Base64.Encode;
  }

  lemma JudgedExactly(
      c: Crypto, note: SignedNote, cp: Checkpoint, log: Witness, witnesses: seq<Witness>, threshold: nat)
    requires forall p :: 0 <= p < |witnesses| ==> First(c, log, witnesses, p)
    requires note.text == Text(cp) && ValidName(cp.origin)
    ensures Judge(c, note, cp, log, witnesses, threshold).Ok? <==> Endorsed(c, note, cp, log, witnesses, threshold)
    ensures Judge(c, note, cp, log, witnesses, threshold).Ok? ==>
              Judge(c, note, cp, log, witnesses, threshold) == Ok(cp)
  {
    hide SignedBy, Counted, First, NoneFails, HasLine, Text, ValidName;
    TextInBytes(cp);
    SignedByExactly(c, note, log);
    CountedExactly(c, note, log, witnesses, |witnesses|);
    assert witnesses[..|witnesses|] == witnesses;
  }
}
