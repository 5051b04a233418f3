/** Making a note and what readers may conclude from it (crates/hide-transparency/src/checkpoint.rs). */
module Cosigning {
  import opened Bytes
  import opened Cbor
  import opened Checkpoints
  import opened Hashing
  import opened MerkleTree
  import opened Results
  import opened SignedNotes
  import opened Signing
  import Base64

  /** A key pair and the name it signs under. */
  datatype Named = Named(name: Bytes, signer: Signer) {
    function Public(): Witness {
      Witness(name, signer.key)
    }
  }

  function OwnLine(c: Crypto, who: Named, text: Bytes): NoteSignature {
    NoteSignature(who.name, KeyIdOf(c, who.name, who.signer.key), Sign(who.signer, CHECKPOINT_CONTEXT, text))
  }

  /** The log signs under its origin. */
  function SignCheckpoint(c: Crypto, cp: Checkpoint, log: Signer): Result<SignedNote, NoteError> {
    match CheckpointText(cp)
    case Err(error) => Err(error)
    case Ok(text) => Ok(SignedNote(text, [OwnLine(c, Named(cp.origin, log), text)]))
  }

  function Cosign(c: Crypto, note: SignedNote, who: Named): Result<SignedNote, NoteError> {
    if !ValidName(who.name) || |note.signatures| >= MAX_SIGNATURES then Err(Malformed)
    else Ok(note.(signatures := note.signatures + [OwnLine(c, who, note.text)]))
  }

  function CosignAll(c: Crypto, cp: Checkpoint, log: Signer, named: seq<Named>): Result<SignedNote, NoteError> {
    if named == [] then SignCheckpoint(c, cp, log)
    else
      match CosignAll(c, cp, log, named[..|named| - 1])
      case Err(error) => Err(error)
      case Ok(note) => Cosign(c, note, named[|named| - 1])
  }

  function Everyone(cp: Checkpoint, log: Signer, named: seq<Named>): (all: seq<Named>)
    ensures |all| == |named| + 1
  {
    [Named(cp.origin, log)] + named
  }

  function AllLines(c: Crypto, all: seq<Named>, text: Bytes): (lines: seq<NoteSignature>)
    ensures |lines| == |all|
  {
    seq(|all|, i requires 0 <= i < |all| => OwnLine(c, all[i], text))
  }

  function PublicOf(named: seq<Named>): (witnesses: seq<Witness>)
    ensures |witnesses| == |named|
  {
    seq(|named|, i requires 0 <= i < |named| => named[i].Public())
  }

  /** Valid names, no two of which share a name or a key id. */
  predicate Distinguished(c: Crypto, all: seq<Named>) {
    && (forall i :: 0 <= i < |all| ==> ValidName(all[i].name))
    && forall i, j :: 0 <= i < j < |all| ==>
         TagOf(c, all[i].Public()).0 != TagOf(c, all[j].Public()).0
         && TagOf(c, all[i].Public()).1 != TagOf(c, all[j].Public()).1
  }

  /** Each of them signs this text, among whatever else it signs. */
  ghost predicate AllAttest(c: Crypto, all: seq<Named>, signed: seq<iset<Bytes>>, text: Bytes) {
    && |signed| == |all|
    && forall i :: 0 <= i < |all| ==> Attests(c, all[i].signer, signed[i], CHECKPOINT_CONTEXT, text)
  }

  lemma {:induction false} CosignedNote(c: Crypto, cp: Checkpoint, log: Signer, named: seq<Named>)
    requires Distinguished(c, Everyone(cp, log, named)) && |named| < MAX_SIGNATURES
    ensures CosignAll(c, cp, log, named) == Ok(SignedNote(Text(cp), AllLines(c, Everyone(cp, log, named), Text(cp))))
    decreases |named|
  {
    hide Text, ValidName, OwnLine, TagOf;
    var all := Everyone(cp, log, named);
    assert ValidName(all[0].name);
    if named == [] {
      assert AllLines(c, all, Text(cp)) == [OwnLine(c, all[0], Text(cp))];
    } else {
      var n := |named| - 1;
      var fewer := Everyone(cp, log, named[..n]);
      assert forall i :: 0 <= i < |fewer| ==> fewer[i] == all[i];
      CosignedNote(c, cp, log, named[..n]);
      assert all[n + 1] == named[n];
      assert AllLines(c, all, Text(cp)) == AllLines(c, fewer, Text(cp)) + [OwnLine(c, named[n], Text(cp))];
    }
  }

  // ---------------------------------------------------------------- an honest note fits and parses

  lemma TextBytes(cp: Checkpoint)
    requires ValidName(cp.origin)
    ensures forall b :: b in Text(cp) ==> b == NEWLINE || 0x20 <= b <= 0x7e
  {
    Base64.EncodePrintable(cp.root);
    hide Base64.Encode, Base64.Decimal;
  }

  lemma TextLength(cp: Checkpoint)
    requires ValidName(cp.origin)
    ensures 0 < |Text(cp)| <= 323 && Text(cp)[|Text(cp)| - 1] == NEWLINE
  {
    PowersOfTen();
    Base64.DecimalLength(cp.size, 20);
    hide Base64.Encode, Base64.Decimal, Base64.Pow10;
  }

  lemma TextShape(cp: Checkpoint)
    requires ValidName(cp.origin)
    ensures var text := Text(cp);
            && text != [] && text[|text| - 1] == NEWLINE && |text| <= 323
            && Utf8(text) && !HasControl(text)
  {
    var text := Text(cp);
    hide Text, ValidName, Utf8;
    TextBytes(cp);
    TextLength(cp);
    assert forall i :: 0 <= i < |text| ==> text[i] in text;
    AsciiUtf8(text);
  }

  lemma PowersOfTen()
    ensures Base64.Pow10(20) == 100_000_000_000_000_000_000
  {
    assert Base64.Pow10(5) == 100_000;
    assert Base64.Pow10(10) == 10_000_000_000;
    assert Base64.Pow10(15) == 1_000_000_000_000_000;
  }

  lemma {:induction false} BlockLength(signatures: seq<NoteSignature>)
    requires forall s :: s in signatures ==> ValidName(s.name) && |s.signature| == SIGNATURE_LENGTH
    ensures |Block(signatures)| <= 4766 * |signatures|
    decreases |signatures|
  {
    hide Line, ValidName;
    if signatures != [] {
      BlockLength(signatures[1..]);
      assert signatures[0] in signatures;
      LineLength(signatures[0]);
    }
  }

  lemma LineLength(s: NoteSignature)
    requires ValidName(s.name) && |s.signature| == SIGNATURE_LENGTH
    ensures |Line(s)| <= 4765
  {
    hide Base64.Encode;
    assert |s.keyId + s.signature| == 3377;
  }

  /** Every note of 32 lines or fewer fits the limit on notes. */
  lemma HonestNoteWellFormed(c: Crypto, cp: Checkpoint, all: seq<Named>, signed: seq<iset<Bytes>>)
    requires Distinguished(c, all) && AllAttest(c, all, signed, Text(cp)) && 1 <= |all| <= MAX_SIGNATURES
            && ValidName(cp.origin)
    ensures WellFormed(SignedNote(Text(cp), AllLines(c, all, Text(cp))))
  {
    hide Text, ValidName, TagOf, Block, Utf8, HasControl, KeyIdOf;
    var lines := AllLines(c, all, Text(cp));
    TextShape(cp);
    forall s | s in lines ensures ValidName(s.name) && |s.signature| == SIGNATURE_LENGTH {
      var i :| 0 <= i < |lines| && s == lines[i];
      assert ValidName(all[i].name) && Attests(c, all[i].signer, signed[i], CHECKPOINT_CONTEXT, Text(cp));
    }
    BlockLength(lines);
  }

  // ---------------------------------------------------------------- an honest note is accepted

  /** Of the lines, only `all[i]`'s own claims its key, and it verifies. */
  lemma OnlyOwnLine(c: Crypto, note: SignedNote, all: seq<Named>, signed: seq<iset<Bytes>>, i: nat)
    requires Distinguished(c, all) && AllAttest(c, all, signed, note.text) && i < |all|
            && note.signatures == AllLines(c, all, note.text)
    ensures SignedBy(c, note, all[i].Public()) == Ok(true)
  {
    var w := all[i].Public();
    AttestedVerifies(c, all[i].signer, signed[i], CHECKPOINT_CONTEXT, note.text);
    hide KeyIdOf, ValidName, Attests, Verifies;
    assert Claims(c, note.signatures[i], w);
    forall j | 0 <= j < |all| && Claims(c, note.signatures[j], w)
      ensures Vouches(c, note, note.signatures[j], w)
    {
      assert TagOf(c, all[j].Public()) == TagOf(c, w);
      assert j == i;
    }
  }

  function FirstPositions(k: nat): (positions: seq<nat>)
    ensures |positions| == k
  {
    seq(k, i => i)
  }

  lemma {:induction false} TagsOfFirst(c: Crypto, log: Witness, witnesses: seq<Witness>, k: nat)
    requires k <= |witnesses|
    ensures AllBelow(FirstPositions(k), |witnesses|)
    ensures var tags := Tags(c, log, witnesses, FirstPositions(k));
            tags[0] == TagOf(c, log) && forall i :: 0 <= i < k ==> tags[i + 1] == TagOf(c, witnesses[i])
  {
    hide TagOf;
    if k > 0 {
      TagsOfFirst(c, log, witnesses, k - 1);
      assert FirstPositions(k)[..k - 1] == FirstPositions(k - 1);
    }
  }

  lemma {:induction false} AllCounted(c: Crypto, note: SignedNote, all: seq<Named>, signed: seq<iset<Bytes>>, k: nat)
    requires Distinguished(c, all) && AllAttest(c, all, signed, note.text)
            && note.signatures == AllLines(c, all, note.text) && k < |all|
    ensures Counted(c, note, all[0].Public(), PublicOf(all[1..]), k) == Ok(FirstPositions(k))
  {
    hide Distinguished, AllAttest, AllLines, TagOf, SignedBy, Tags;
    if k > 0 {
      AllCounted(c, note, all, signed, k - 1);
      OnlyOwnLine(c, note, all, signed, k);
      NotListed(c, all, k);
      assert PublicOf(all[1..])[k - 1] == all[k].Public();
      assert FirstPositions(k) == FirstPositions(k - 1) + [k - 1];
    }
  }

  lemma NotListed(c: Crypto, all: seq<Named>, k: nat)
    requires Distinguished(c, all) && 0 < k < |all|
    ensures AllBelow(FirstPositions(k - 1), |all| - 1)
    ensures !Listed(Tags(c, all[0].Public(), PublicOf(all[1..]), FirstPositions(k - 1)), TagOf(c, all[k].Public()))
  {
    TagsOfFirst(c, all[0].Public(), PublicOf(all[1..]), k - 1);
    hide TagOf, Tags, ValidName;
    var tags := Tags(c, all[0].Public(), PublicOf(all[1..]), FirstPositions(k - 1));
    forall i | 0 <= i < |tags| ensures tags[i] == TagOf(c, all[i].Public()) {
      if i > 0 {
        assert tags[i - 1 + 1] == TagOf(c, PublicOf(all[1..])[i - 1]);
      }
    }
  }

  /** A note the log signed and distinct witnesses cosigned is accepted up to their number. */
  lemma HonestNoteAccepted(
      c: Crypto, cp: Checkpoint, log: Signer, named: seq<Named>, signed: seq<iset<Bytes>>, threshold: nat)
    requires Distinguished(c, Everyone(cp, log, named)) && |named| < MAX_SIGNATURES
    requires AllAttest(c, Everyone(cp, log, named), signed, Text(cp))
    ensures CosignAll(c, cp, log, named).Ok?
    ensures Witnessed(c, EncodeNote(CosignAll(c, cp, log, named).value), Witness(cp.origin, log.key),
                      PublicOf(named), threshold)
            == if threshold <= |named| then Ok(cp) else Err(Unsigned)
  {
    var all := Everyone(cp, log, named);
    assert ValidName(all[0].name);
    assert all[0].Public() == Witness(cp.origin, log.key) && all[1..] == named;
    hide Distinguished, AllAttest, Text, AllLines, CosignAll, EncodeNote, DecodeNote, ParseText, WellFormed, SignedBy,
      Counted, ValidName;
    CosignedNote(c, cp, log, named);
    var note := SignedNote(Text(cp), AllLines(c, all, Text(cp)));
    HonestNoteWellFormed(c, cp, all, signed);
    NoteRoundTrip(note);
    Checkpoints.TextRoundTrip(cp);
    OnlyOwnLine(c, note, all, signed, 0);
    AllCounted(c, note, all, signed, |named|);
  }

  // ---------------------------------------------------------------- one view, one log

  /**
   Two readers who each demand the quorum and hold roots of real logs of one size hold the same
   entries, or two inputs hashed for those logs collide.
   */
  lemma WitnessedLogsAgree(c: Crypto, s: Bytes, s': Bytes, log: Witness, witnesses: seq<Witness>, threshold: nat,
                           faulty: set<nat>, signed: seq<iset<Bytes>>, entries: seq<Bytes>, entries': seq<Bytes>)
    requires Witnessed(c, s, log, witnesses, threshold).Ok? && Witnessed(c, s', log, witnesses, threshold).Ok?
    requires 2 * threshold > |witnesses| + |faulty| && |signed| == |witnesses|
    requires forall w :: 0 <= w < |witnesses| && w !in faulty ==> Honest(c, witnesses[w], signed[w])
    requires var a, b := Witnessed(c, s, log, witnesses, threshold).value,
            Witnessed(c, s', log, witnesses, threshold).value;
             && a.size == |entries| && a.root == RootOf(c.hash, LeafHashes(c.hash, entries))
             && b.size == |entries'| && b.root == RootOf(c.hash, LeafHashes(c.hash, entries'))
    requires |entries| == |entries'|
    ensures entries == entries' || HasCollision(c.hash, LogInputs(c.hash, entries) + LogInputs(c.hash, entries'))
  {
    hide Witnessed, Honest, RootOf, LeafHashes, LogInputs, HasCollision;
    NoSplitView(c, s, s', log, witnesses, threshold, faulty, signed);
    RootBinding(c.hash, entries, entries');
  }

  // ---------------------------------------------------------------- accepted, and the only one

  /**
   In one world: the note that honest witnesses cosign is accepted, and any note at all that is
   accepted for that size of that log says the same.
   */
  lemma CosignedViewIsTheOnlyOne(
      c: Crypto, cp: Checkpoint, log: Signer, named: seq<Named>, signed: seq<iset<Bytes>>, threshold: nat,
      faulty: set<nat>, s: Bytes)
    requires Distinguished(c, Everyone(cp, log, named)) && |named| < MAX_SIGNATURES
    requires AllAttest(c, Everyone(cp, log, named), signed, Text(cp))
    requires threshold <= |named| && 2 * threshold > |named| + |faulty|
    requires forall w :: 0 <= w < |named| && w !in faulty ==> Honest(c, named[w].Public(), signed[w + 1])
    requires var other := Witnessed(c, s, Witness(cp.origin, log.key), PublicOf(named), threshold);
             other.Ok? && other.value.size == cp.size
    ensures CosignAll(c, cp, log, named).Ok?
    ensures Witnessed(c, EncodeNote(CosignAll(c, cp, log, named).value), Witness(cp.origin, log.key),
                      PublicOf(named), threshold) == Ok(cp)
    ensures Witnessed(c, s, Witness(cp.origin, log.key), PublicOf(named), threshold) == Ok(cp)
  {
    hide Distinguished, AllAttest, Witnessed, Honest, CosignAll, EncodeNote, Text, PublicOf, Everyone;
    HonestNoteAccepted(c, cp, log, named, signed, threshold);
    BooksOfWitnesses(c, cp, log, named, signed, faulty);
    NoSplitView(c, s, EncodeNote(CosignAll(c, cp, log, named).value), Witness(cp.origin, log.key), PublicOf(named),
                threshold, faulty, signed[1..]);
  }

  lemma BooksOfWitnesses(
      c: Crypto, cp: Checkpoint, log: Signer, named: seq<Named>, signed: seq<iset<Bytes>>, faulty: set<nat>)
    requires AllAttest(c, Everyone(cp, log, named), signed, Text(cp))
    requires forall w :: 0 <= w < |named| && w !in faulty ==> Honest(c, named[w].Public(), signed[w + 1])
    ensures |signed| == |named| + 1
    ensures forall w :: 0 <= w < |named| && w !in faulty ==> Honest(c, PublicOf(named)[w], signed[1..][w])
  {
    hide Honest, Attests, Text;
  }

  // ---------------------------------------------------------------- worlds in which all of that holds

  function Mark(name: Bytes, key: Bytes): Bytes {
    name + [NEWLINE] + SIGNATURE_TYPE + key
  }

  lemma MarksTellNames(name: Bytes, name': Bytes, key: Bytes)
    requires Mark(name, key) == Mark(name', key)
    ensures name == name'
  {
    assert |name| == |name'|;
    assert name == Mark(name, key)[..|name|] && name' == Mark(name', key)[..|name'|];
  }

  lemma KeysTellMarks(name: Bytes, key: Bytes, name': Bytes, key': Bytes)
    requires |key| == |key'| && key != key'
    ensures Mark(name, key) != Mark(name', key')
  {
    var x, y := Mark(name, key), Mark(name', key');
    assert x[|x| - |key|..] == key && y[|y| - |key'|..] == key';
  }

  /** A hash that tells two inputs from each other and from all the rest. */
  function Telling(a: Bytes, b: Bytes): Hasher {
    x => if x == a then [1] + Zeros(31) else if x == b then [2] + Zeros(31) else Zeros(32)
  }

  /** The first byte of the key id that such a hash gives a name. */
  lemma IdOf(c: Crypto, a: Bytes, b: Bytes, w: Witness)
    requires c.hash == Telling(a, b)
    ensures var mark := Mark(w.name, w.key);
            TagOf(c, w).0 == w.name && TagOf(c, w).1[0] == if mark == a then 1 else if mark == b then 2 else 0
  {
  }

  /** Every key of the book signs this checkpoint and nothing else. */
  lemma NotaryAttests(hash: Hasher, book: map<Bytes, iset<Bytes>>, cp: Checkpoint, all: seq<Named>)
    returns (signed: seq<iset<Bytes>>)
    requires forall i :: 0 <= i < |all| ==>
               && all[i].signer == MarkOf(all[i].signer.key) && |all[i].signer.key| == VERIFYING_KEY_LENGTH
               && all[i].signer.key in book && book[all[i].signer.key] == iset{Payload(cp)}
    ensures AllAttest(Notary(hash, book), all, signed, Text(cp))
    ensures forall i :: 0 <= i < |all| ==> signed[i] == iset{Payload(cp)}
  {
    hide Text, Genuine, Notary, MarkOf;
    signed := seq(|all|, _ => iset{Payload(cp)});
    forall i | 0 <= i < |all|
      ensures Attests(Notary(hash, book), all[i].signer, signed[i], CHECKPOINT_CONTEXT, Text(cp))
    {
      NotaryIsSound(hash, book, all[i].signer.key);
    }
  }

  lemma HashOf(hash: Hasher, book: map<Bytes, iset<Bytes>>)
    ensures Notary(hash, book).hash == hash
  {
  }

  /** A letter that is none of two names. */
  function OtherName(a: Bytes, b: Bytes): (name: Bytes)
    ensures name != a && name != b && ValidName(name)
  {
    if [97] != a && [97] != b then [97] else if [98] != a && [98] != b then [98] else [99]
  }

  /** All of that can hold at once, for any checkpoint: a log and a witness that sign it and nothing else. */
  lemma HonestWitnessExists(cp: Checkpoint)
    returns (c: Crypto, log: Signer, named: seq<Named>, signed: seq<iset<Bytes>>)
    requires ValidName(cp.origin)
    ensures |named| == 1 && Distinguished(c, Everyone(cp, log, named))
    ensures AllAttest(c, Everyone(cp, log, named), signed, Text(cp))
    ensures Honest(c, named[0].Public(), signed[1])
  {
    hide Text, Unforgeable, KeepsOneView, Notary, Telling, OtherName, TagOf, ValidName, Mark, Attests;
    var name := OtherName(cp.origin, cp.origin);
    var key, key' := Zeros(VERIFYING_KEY_LENGTH), Zeros(VERIFYING_KEY_LENGTH - 1) + [1];
    assert key[VERIFYING_KEY_LENGTH - 1] != key'[VERIFYING_KEY_LENGTH - 1];
    var mark := Mark(name, key');
    var book: map<Bytes, iset<Bytes>> := map[key := iset{Payload(cp)}, key' := iset{Payload(cp)}];
    c := Notary(Telling(mark, mark), book);
    HashOf(Telling(mark, mark), book);
    log, named := MarkOf(key), [Named(name, MarkOf(key'))];
    var all := Everyone(cp, log, named);
    assert all == [Named(cp.origin, log), named[0]];
    signed := NotaryAttests(Telling(mark, mark), book, cp, all);
    IdOf(c, mark, mark, Witness(cp.origin, key));
    IdOf(c, mark, mark, Witness(name, key'));
    KeysTellMarks(cp.origin, key, name, key');
    NotaryIsSound(Telling(mark, mark), book, key');
    OneViewOfOne(cp);
  }

  lemma OneViewOfOne(cp: Checkpoint)
    requires ValidName(cp.origin)
    ensures KeepsOneView(iset{Payload(cp)})
  {
    hide Text, ValidName;
    forall a: Checkpoint, b: Checkpoint |
      ValidName(a.origin) && a.origin == b.origin && Payload(a) == Payload(cp) && Payload(b) == Payload(cp)
      ensures a.root == b.root
    {
      BindInjective(CHECKPOINT_CONTEXT, Text(a), CHECKPOINT_CONTEXT, Text(b));
      TextInjective(a, b);
    }
  }
}
