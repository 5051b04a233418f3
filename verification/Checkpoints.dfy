/** Checkpoints, their witnesses and the quorum they form (crates/hide-transparency/src/checkpoint.rs). */
module Checkpoints {
  import opened Bytes
  import opened Cbor
  import opened FiniteSets
  import opened Hashing
  import opened Results
  import opened SignedNotes
  import opened Signing
  import Base64

  const CHECKPOINT_CONTEXT: Blob := Ascii("HIDE/1.0 checkpoint")
  const SIGNATURE_TYPE: Bytes := [0xff] + Ascii("HIDE/1.0 hide-sign")

  /** What a log publishes: who it is, its size and its root. */
  datatype Checkpoint = Checkpoint(origin: Bytes, size: u64, root: Digest)

  // ---------------------------------------------------------------- the text

  /** Three lines. */
  function Text(cp: Checkpoint): Bytes {
    cp.origin + ([NEWLINE] + (Base64.Decimal(cp.size) + ([NEWLINE] + (Base64.Encode(cp.root) + ([NEWLINE] + [])))))
  }

  function CheckpointText(cp: Checkpoint): Result<Bytes, NoteError> {
    if ValidName(cp.origin) then Ok(Text(cp)) else Err(Malformed)
  }

  function ParseText(text: Bytes): Result<Checkpoint, NoteError> {
    var lines := Lines(text);
    if |lines| != 3 || !ValidName(lines[0]) then Err(Malformed)
    else
      match (Base64.ParseU64(lines[1]), Base64.Decode(lines[2]))
      case (Some(size), Some(root)) =>
        if |root| != 32 then Err(Malformed)
        else
          var cp := Checkpoint(lines[0], size, root);
          if Text(cp) != text then Err(Malformed) else Ok(cp)
      case _ => Err(Malformed)
  }

  lemma TextLines(cp: Checkpoint)
    requires ValidName(cp.origin)
    ensures Lines(Text(cp)) == [cp.origin, Base64.Decimal(cp.size), Base64.Encode(cp.root)]
  {
    var size, root := Base64.Decimal(cp.size), Base64.Encode(cp.root);
    Base64.EncodePrintable(cp.root);
    hide Lines, Base64.Encode, Base64.Decimal;
    LinesCons(root, []);
    LinesCons(size, root + ([NEWLINE] + []));
    LinesCons(cp.origin, size + ([NEWLINE] + (root + ([NEWLINE] + []))));
    assert Lines([]) == [] by { NoLines(); }
  }

  /** A checkpoint is read back from its text. */
  lemma TextRoundTrip(cp: Checkpoint)
    requires ValidName(cp.origin)
    ensures ParseText(Text(cp)) == Ok(cp)
  {
    TextLines(cp);
    Base64.RoundTrip(cp.root);
    Base64.DecimalRoundTrip(cp.size);
    hide Lines, Base64.Encode, Base64.Decode, Base64.Decimal, Base64.ParseU64, Text;
  }

  /** Different checkpoints have different texts. */
  lemma TextInjective(a: Checkpoint, b: Checkpoint)
    requires ValidName(a.origin) && ValidName(b.origin) && Text(a) == Text(b)
    ensures a == b
  {
    TextRoundTrip(a);
    TextRoundTrip(b);
    hide *;
  }

  lemma ParsedText(text: Bytes)
    requires ParseText(text).Ok?
    ensures var cp := ParseText(text).value;
            ValidName(cp.origin) && Text(cp) == text
  {
    hide Lines, Base64.Encode, Base64.Decode, Base64.Decimal, Base64.ParseU64, Text;
  }

  // ---------------------------------------------------------------- who signed a note

  function KeyIdOf(c: Crypto, name: Bytes, key: Bytes): KeyId {
    c.hash(name + [NEWLINE] + SIGNATURE_TYPE + key)[..4]
  }

  datatype Witness = Witness(name: Bytes, key: Bytes)

  type Tag = (Bytes, KeyId)

  function TagOf(c: Crypto, w: Witness): Tag {
    (w.name, KeyIdOf(c, w.name, w.key))
  }

  /** The line says it is by this key. */
  predicate Claims(c: Crypto, line: NoteSignature, w: Witness) {
    (line.name, line.keyId) == TagOf(c, w)
  }

  /** The line's signature verifies over the note's text. */
  predicate Vouches(c: Crypto, note: SignedNote, line: NoteSignature, w: Witness) {
    Verifies(c, w.key, CHECKPOINT_CONTEXT, note.text, line.signature)
  }

  /** A line that claims a key and does not verify is an error; other keys' lines are skipped. */
  function SignedBy(c: Crypto, note: SignedNote, w: Witness): Result<bool, NoteError> {
    if exists i :: 0 <= i < |note.signatures| && Claims(c, note.signatures[i], w)
                   && !Vouches(c, note, note.signatures[i], w) then Err(BadSignature)
    else Ok(exists i :: 0 <= i < |note.signatures| && Claims(c, note.signatures[i], w))
  }

  method CheckSignedBy(c: Crypto, note: SignedNote, w: Witness) returns (result: Result<bool, NoteError>)
    ensures result == SignedBy(c, note, w)
  {
    var id := KeyIdOf(c, w.name, w.key);
    hide KeyIdOf, Vouches;
    var found := false;
    for i := 0 to |note.signatures|
      invariant found == exists j :: 0 <= j < i && Claims(c, note.signatures[j], w)
      invariant forall j :: 0 <= j < i ==>
        Claims(c, note.signatures[j], w) ==> Vouches(c, note, note.signatures[j], w)
    {
      var line := note.signatures[i];
      if line.name == w.name && line.keyId == id {
        assert Claims(c, line, w);
        if !Vouches(c, note, line, w) {
          return Err(BadSignature);
        }
        found := true;
      }
    }
    return Ok(found);
  }

  // ---------------------------------------------------------------- counting witnesses

  /** A tag shares its name or its key id with one already on the list. */
  predicate Listed(tags: seq<Tag>, t: Tag) {
    exists i :: 0 <= i < |tags| && (tags[i].0 == t.0 || tags[i].1 == t.1)
  }

  predicate AllBelow(positions: seq<nat>, k: nat) {
    forall i :: 0 <= i < |positions| ==> positions[i] < k
  }

  function Tags(c: Crypto, log: Witness, witnesses: seq<Witness>, positions: seq<nat>): (tags: seq<Tag>)
    requires AllBelow(positions, |witnesses|)
    ensures |tags| == |positions| + 1
  {
    if positions == [] then [TagOf(c, log)]
    else
      var last := positions[|positions| - 1];
      Tags(c, log, witnesses, positions[..|positions| - 1]) + [TagOf(c, witnesses[last])]
  }

  /** The positions counted among the first `k` witnesses. */
  function Counted(c: Crypto, note: SignedNote, log: Witness, witnesses: seq<Witness>, k: nat)
    : (result: Result<seq<nat>, NoteError>)
    requires k <= |witnesses|
    ensures result.Ok? ==> AllBelow(result.value, k)
  {
    if k == 0 then Ok([])
    else
      match Counted(c, note, log, witnesses, k - 1)
      case Err(error) => Err(error)
      case Ok(positions) =>
        var w := witnesses[k - 1];
        if Listed(Tags(c, log, witnesses, positions), TagOf(c, w)) then Ok(positions)
        else
          match SignedBy(c, note, w)
          case Err(error) => Err(error)
          case Ok(cosigned) => Ok(if cosigned then positions + [k - 1] else positions)
  }

  function Judge(c: Crypto, note: SignedNote, cp: Checkpoint, log: Witness, witnesses: seq<Witness>, threshold: nat)
    : Result<Checkpoint, NoteError>
  {
    if cp.origin != log.name then Err(WrongOrigin(cp.origin))
    else
      match SignedBy(c, note, log)
      case Err(error) => Err(error)
      case Ok(false) => Err(Unsigned)
      case Ok(true) =>
        match Counted(c, note, log, witnesses, |witnesses|)
        case Err(error) => Err(error)
        case Ok(positions) => if |positions| < threshold then Err(Unsigned) else Ok(cp)
  }

  /** The verdict on a note: `log` is the log's own name and key, a name equal to its origin. */
  function Witnessed(c: Crypto, s: Bytes, log: Witness, witnesses: seq<Witness>, threshold: nat)
    : Result<Checkpoint, NoteError>
  {
    match DecodeNote(s)
    case Err(error) => Err(error)
    case Ok(note) =>
      match ParseText(note.text)
      case Err(error) => Err(error)
      case Ok(cp) => Judge(c, note, cp, log, witnesses, threshold)
  }

  method VerifyWitnessed(c: Crypto, s: Bytes, origin: Bytes, log: Bytes, witnesses: seq<Witness>, threshold: nat)
    returns (result: Result<Checkpoint, NoteError>)
    ensures result == Witnessed(c, s, Witness(origin, log), witnesses, threshold)
  {
    var decoded := Decode(s);
    if decoded.Err? {
      return Err(decoded.error);
    }
    var note := decoded.value;
    var parsed := ParseText(note.text);
    if parsed.Err? {
      return Err(parsed.error);
    }
    result := CheckWitnesses(c, note, parsed.value, origin, log, witnesses, threshold);
  }

  method CheckWitnesses(
      c: Crypto, note: SignedNote, cp: Checkpoint, origin: Bytes, log: Bytes, witnesses: seq<Witness>, threshold: nat)
    returns (result: Result<Checkpoint, NoteError>)
    ensures result == Judge(c, note, cp, Witness(origin, log), witnesses, threshold)
  {
    if cp.origin != origin {
      return Err(WrongOrigin(cp.origin));
    }
    hide SignedBy, KeyIdOf, Listed, Counted, Tags;
    var signed := CheckSignedBy(c, note, Witness(origin, log));
    if signed.Err? {
      return Err(signed.error);
    }
    if !signed.value {
      return Err(Unsigned);
    }
    var counted: seq<Tag> := [(origin, KeyIdOf(c, origin, log))];
    var cosigned := 0;
    ghost var positions: seq<nat> := [];
    CountedNone(c, note, Witness(origin, log), witnesses);
    for k := 0 to |witnesses|
      invariant Counted(c, note, Witness(origin, log), witnesses, k) == Ok(positions)
      invariant counted == Tags(c, Witness(origin, log), witnesses, positions) && cosigned == |positions|
    {
      CountedStep(c, note, Witness(origin, log), witnesses, k);
      var w := witnesses[k];
      var id := KeyIdOf(c, w.name, w.key);
      if Listed(counted, (w.name, id)) {
        continue;
      }
      signed := CheckSignedBy(c, note, w);
      if signed.Err? {
        return Err(signed.error);
      }
      if signed.value {
        cosigned := cosigned + 1;
        counted := counted + [(w.name, id)];
        positions := positions + [k];
      }
    }
    return if cosigned < threshold then Err(Unsigned) else Ok(cp);
  }

  lemma CountedNone(c: Crypto, note: SignedNote, log: Witness, witnesses: seq<Witness>)
    ensures Counted(c, note, log, witnesses, 0) == Ok([]) && Tags(c, log, witnesses, []) == [TagOf(c, log)]
  {
  }

  /** What one more witness does to the count. */
  lemma CountedStep(c: Crypto, note: SignedNote, log: Witness, witnesses: seq<Witness>, k: nat)
    requires k < |witnesses| && Counted(c, note, log, witnesses, k).Ok?
    ensures var positions, w := Counted(c, note, log, witnesses, k).value, witnesses[k];
            var next := Counted(c, note, log, witnesses, k + 1);
            if Listed(Tags(c, log, witnesses, positions), TagOf(c, w)) || SignedBy(c, note, w) == Ok(false)
            then next == Ok(positions)
            else
              match SignedBy(c, note, w)
              case Err(error) => Counted(c, note, log, witnesses, |witnesses|) == Err(error)
              case Ok(_) =>
                && next == Ok(positions + [k])
                && Tags(c, log, witnesses, positions + [k]) == Tags(c, log, witnesses, positions) + [TagOf(c, w)]
  {
    hide SignedBy, Listed, TagOf;
    var positions := Counted(c, note, log, witnesses, k).value;
    CountedError(c, note, log, witnesses, k + 1);
    assert (positions + [k])[..|positions|] == positions;
  }

  /** An error among the first witnesses is the error of the whole list. */
  lemma {:induction false} CountedError(
      c: Crypto, note: SignedNote, log: Witness, witnesses: seq<Witness>, k: nat)
    requires k <= |witnesses|
    ensures Counted(c, note, log, witnesses, k).Err? ==>
            Counted(c, note, log, witnesses, |witnesses|) == Counted(c, note, log, witnesses, k)
    decreases |witnesses| - k
  {
    hide SignedBy, Listed, Tags;
    if k < |witnesses| {
      CountedError(c, note, log, witnesses, k + 1);
    }
  }

  // ---------------------------------------------------------------- what acceptance means

  /** Some line of the note claims this key, and it verifies. */
  predicate Backs(c: Crypto, note: SignedNote, w: Witness) {
    exists i :: 0 <= i < |note.signatures|
             && Claims(c, note.signatures[i], w) && Vouches(c, note, note.signatures[i], w)
  }

  predicate Separate(tags: seq<Tag>) {
    forall i, j :: 0 <= i < j < |tags| ==> tags[i].0 != tags[j].0 && tags[i].1 != tags[j].1
  }

  predicate Ascending(positions: seq<nat>) {
    forall i, j :: 0 <= i < j < |positions| ==> positions[i] < positions[j]
  }

  /**
   Each counted position has a verifying line, and no two of them, nor any and the log, share a name or
   a key id. That tells names apart, not keys: a key id is a hash of the name and the key.
   */
  predicate Independent(c: Crypto, note: SignedNote, log: Witness, witnesses: seq<Witness>, positions: seq<nat>) {
    && AllBelow(positions, |witnesses|)
    && (forall i :: 0 <= i < |positions| ==> Backs(c, note, witnesses[positions[i]]))
    && Ascending(positions)
    && Separate(Tags(c, log, witnesses, positions))
  }

  lemma SignedByBacks(c: Crypto, note: SignedNote, w: Witness)
    ensures SignedBy(c, note, w) == Ok(true) ==> Backs(c, note, w)
    ensures Backs(c, note, w) ==> SignedBy(c, note, w) != Ok(false)
  {
    hide Claims, Vouches;
  }

  lemma IndependentSnoc(
      c: Crypto, note: SignedNote, log: Witness, witnesses: seq<Witness>, positions: seq<nat>, p: nat)
    requires Independent(c, note, log, witnesses, positions)
    requires p < |witnesses| && AllBelow(positions, p) && Backs(c, note, witnesses[p])
    requires !Listed(Tags(c, log, witnesses, positions), TagOf(c, witnesses[p]))
    ensures Independent(c, note, log, witnesses, positions + [p])
  {
    var more := positions + [p];
    hide Backs, TagOf;
    assert more[..|positions|] == positions;
    assert Tags(c, log, witnesses, more) == Tags(c, log, witnesses, positions) + [TagOf(c, witnesses[p])];
    hide Tags;
  }

  lemma {:induction false} CountedAreIndependent(
      c: Crypto, note: SignedNote, log: Witness, witnesses: seq<Witness>, k: nat)
    requires k <= |witnesses| && Counted(c, note, log, witnesses, k).Ok?
    ensures Independent(c, note, log, witnesses, Counted(c, note, log, witnesses, k).value)
  {
    hide SignedBy, Listed, Backs, TagOf, Independent;
    if k == 0 {
      NobodyIndependent(c, note, log, witnesses);
    } else {
      CountedAreIndependent(c, note, log, witnesses, k - 1);
      var positions := Counted(c, note, log, witnesses, k - 1).value;
      SignedByBacks(c, note, witnesses[k - 1]);
      if Counted(c, note, log, witnesses, k).value != positions {
        IndependentSnoc(c, note, log, witnesses, positions, k - 1);
      }
    }
  }

  lemma NobodyIndependent(c: Crypto, note: SignedNote, log: Witness, witnesses: seq<Witness>)
    ensures Independent(c, note, log, witnesses, [])
  {
  }

  /**
   An accepted note is a canonical note whose text is the checkpoint's, carries a verifying line
   of the log, and at least `threshold` positions of the list back it under different names and key ids.
   */
  lemma AcceptedMeans(c: Crypto, s: Bytes, log: Witness, witnesses: seq<Witness>, threshold: nat)
    returns (note: SignedNote, positions: seq<nat>)
    requires Witnessed(c, s, log, witnesses, threshold).Ok?
    ensures var cp := Witnessed(c, s, log, witnesses, threshold).value;
            && s == EncodeNote(note) && note.text == Text(cp)
            && cp.origin == log.name && ValidName(cp.origin)
            && Backs(c, note, log)
    ensures |positions| >= threshold && Independent(c, note, log, witnesses, positions)
  {
    hide DecodeNote, EncodeNote, ParseText, Text, SignedBy, Counted, Backs, Independent, ValidName;
    note := DecodeNote(s).value;
    NoteCanonical(s);
    ParsedText(note.text);
    SignedByBacks(c, note, log);
    positions := Counted(c, note, log, witnesses, |witnesses|).value;
    CountedAreIndependent(c, note, log, witnesses, |witnesses|);
  }

  // ---------------------------------------------------------------- quorums

  function Members(positions: seq<nat>): set<nat> {
    set p | p in positions
  }

  lemma {:induction false} MembersCount(positions: seq<nat>)
    requires Ascending(positions)
    ensures |Members(positions)| == |positions|
    decreases |positions|
  {
    if positions != [] {
      var n := |positions| - 1;
      MembersCount(positions[..n]);
      assert positions == positions[..n] + [positions[n]];
      assert Members(positions) == Members(positions[..n]) + {positions[n]};
    }
  }

  /** Two large enough sets of `n` witnesses share one outside any small set. */
  lemma Overlap(n: nat, p: set<nat>, q: set<nat>, faulty: set<nat>) returns (w: nat)
    requires forall x :: x in p + q ==> x < n
    requires |p| + |q| > n + |faulty|
    ensures w in p && w in q && w !in faulty
  {
    BelowSize(p + q, n);
    assert |p + q| + |p * q| == |p| + |q|;
    if p * q <= faulty {
      SubsetSize(p * q, faulty);
    }
    w :| w in p * q && w !in faulty;
  }

  /** The bytes a witness signs for a checkpoint. */
  function Payload(cp: Checkpoint): Bytes {
    Bind(CHECKPOINT_CONTEXT, Text(cp))
  }

  /** A signer that never puts two roots to one size of one log. */
  ghost predicate KeepsOneView(signed: iset<Bytes>) {
    forall a: Checkpoint, b: Checkpoint ::
      (&& ValidName(a.origin) && a.origin == b.origin && a.size == b.size
       && Payload(a) in signed && Payload(b) in signed)
      ==> a.root == b.root
  }

  /** Nothing verifies under a witness's key but what it signed, and it signed one view. */
  ghost predicate Honest(c: Crypto, w: Witness, signed: iset<Bytes>) {
    Unforgeable(c, w.key, signed) && KeepsOneView(signed)
  }

  lemma BackedPayload(c: Crypto, note: SignedNote, cp: Checkpoint, w: Witness, signed: iset<Bytes>)
    requires Backs(c, note, w) && note.text == Text(cp) && Unforgeable(c, w.key, signed)
    ensures Payload(cp) in signed
  {
    hide Text, Claims, Bind;
  }

  /**
   With more than half the list demanded, two notes accepted for different checkpoints share a
   listed witness, and its key verified both texts.
   */
  lemma SharedWitness(c: Crypto, s: Bytes, s': Bytes, log: Witness, witnesses: seq<Witness>, threshold: nat,
                      faulty: set<nat>)
    returns (w: nat, note: SignedNote, note': SignedNote)
    requires Witnessed(c, s, log, witnesses, threshold).Ok? && Witnessed(c, s', log, witnesses, threshold).Ok?
    requires 2 * threshold > |witnesses| + |faulty|
    ensures w < |witnesses| && w !in faulty
    ensures Backs(c, note, witnesses[w]) && Backs(c, note', witnesses[w])
    ensures note.text == Text(Witnessed(c, s, log, witnesses, threshold).value)
    ensures note'.text == Text(Witnessed(c, s', log, witnesses, threshold).value)
    ensures Witnessed(c, s, log, witnesses, threshold) != Witnessed(c, s', log, witnesses, threshold)
            ==> note.text != note'.text
  {
    hide Witnessed, Backs, Text, Tags, Separate, EncodeNote, ValidName;
    var p: seq<nat>, q: seq<nat>;
    note, p := AcceptedMeans(c, s, log, witnesses, threshold);
    note', q := AcceptedMeans(c, s', log, witnesses, threshold);
    MembersCount(p);
    MembersCount(q);
    w := Overlap(|witnesses|, Members(p), Members(q), faulty);
    if note.text == note'.text {
      TextInjective(Witnessed(c, s, log, witnesses, threshold).value,
                    Witnessed(c, s', log, witnesses, threshold).value);
    }
  }

  /** No split view: honest witnesses outnumbering the overlap leave one root for each size. */
  lemma NoSplitView(c: Crypto, s: Bytes, s': Bytes, log: Witness, witnesses: seq<Witness>, threshold: nat,
                    faulty: set<nat>, signed: seq<iset<Bytes>>)
    requires Witnessed(c, s, log, witnesses, threshold).Ok? && Witnessed(c, s', log, witnesses, threshold).Ok?
    requires Witnessed(c, s, log, witnesses, threshold).value.size
            == Witnessed(c, s', log, witnesses, threshold).value.size
    requires 2 * threshold > |witnesses| + |faulty| && |signed| == |witnesses|
    requires forall w :: 0 <= w < |witnesses| && w !in faulty ==> Honest(c, witnesses[w], signed[w])
    ensures Witnessed(c, s, log, witnesses, threshold) == Witnessed(c, s', log, witnesses, threshold)
  {
    hide Witnessed, Backs, Payload, Text, Unforgeable, Independent, ValidName, EncodeNote;
    var a, b := Witnessed(c, s, log, witnesses, threshold).value, Witnessed(c, s', log, witnesses, threshold).value;
    var w, note, note' := SharedWitness(c, s, s', log, witnesses, threshold, faulty);
    BackedPayload(c, note, a, witnesses[w], signed[w]);
    BackedPayload(c, note', b, witnesses[w], signed[w]);
    var _, _ := AcceptedMeans(c, s, log, witnesses, threshold);
    var _, _ := AcceptedMeans(c, s', log, witnesses, threshold);
  }
}
