/** How many different keys stand behind an accepted note (crates/hide-transparency/src/checkpoint.rs). */
module WitnessKeys {
  import opened Bytes
  import opened Checkpoints
  import opened Cosigning
  import opened FiniteSets
  import opened Hashing
  import opened Results
  import opened SignedNotes
  import opened Signing

  /** One key under two names that the count keeps apart. */
  predicate Aliased(c: Crypto, a: Witness, b: Witness) {
    a.key == b.key && TagOf(c, a).0 != TagOf(c, b).0 && TagOf(c, a).1 != TagOf(c, b).1
  }

  /** No key is listed, or is the log's, under two such names. */
  predicate Unaliased(c: Crypto, log: Witness, witnesses: seq<Witness>) {
    && (forall i :: 0 <= i < |witnesses| ==> !Aliased(c, log, witnesses[i]))
    && forall i, j :: 0 <= i < j < |witnesses| ==> !Aliased(c, witnesses[i], witnesses[j])
  }

  /** The keys other than the log's whose lines verify. */
  function Vouching(c: Crypto, note: SignedNote, log: Witness, witnesses: seq<Witness>): set<Bytes> {
    set i | 0 <= i < |witnesses| && Backs(c, note, witnesses[i]) && witnesses[i].key != log.key :: witnesses[i].key
  }

  function KeysAt(witnesses: seq<Witness>, positions: seq<nat>): (keys: set<Bytes>)
    requires AllBelow(positions, |witnesses|)
  {
    set i | 0 <= i < |positions| :: witnesses[positions[i]].key
  }

  lemma {:induction false} DifferentKeysCount(witnesses: seq<Witness>, positions: seq<nat>)
    requires AllBelow(positions, |witnesses|)
    requires forall i, j :: 0 <= i < j < |positions| ==> witnesses[positions[i]].key != witnesses[positions[j]].key
    ensures |KeysAt(witnesses, positions)| == |positions|
    decreases |positions|
  {
    if positions != [] {
      var n := |positions| - 1;
      var front := positions[..n];
      assert forall i :: 0 <= i < n ==> front[i] == positions[i];
      DifferentKeysCount(witnesses, front);
      assert KeysAt(witnesses, positions) == KeysAt(witnesses, front) + {witnesses[positions[n]].key};
    }
  }

  lemma {:induction false} TagsAt(c: Crypto, log: Witness, witnesses: seq<Witness>, positions: seq<nat>)
    requires AllBelow(positions, |witnesses|)
    ensures var tags := Tags(c, log, witnesses, positions);
            tags[0] == TagOf(c, log) && forall i :: 0 <= i < |positions| ==>
              tags[i + 1] == TagOf(c, witnesses[positions[i]])
    decreases |positions|
  {
    hide TagOf;
    if positions != [] {
      var n := |positions| - 1;
      TagsAt(c, log, witnesses, positions[..n]);
    }
  }

  /** Positions counted as independent hold different keys if no key is aliased. */
  lemma IndependentKeys(c: Crypto, note: SignedNote, log: Witness, witnesses: seq<Witness>, positions: seq<nat>)
    requires Independent(c, note, log, witnesses, positions) && Unaliased(c, log, witnesses)
    ensures |Vouching(c, note, log, witnesses)| >= |positions|
  {
    TagsAt(c, log, witnesses, positions);
    hide Tags, TagOf, Backs;
    var tags := Tags(c, log, witnesses, positions);
    forall i, j | 0 <= i < j < |positions|
      ensures witnesses[positions[i]].key != witnesses[positions[j]].key
    {
      assert tags[i + 1].0 != tags[j + 1].0 && tags[i + 1].1 != tags[j + 1].1;
      assert !Aliased(c, witnesses[positions[i]], witnesses[positions[j]]);
    }
    DifferentKeysCount(witnesses, positions);
    forall i | 0 <= i < |positions| ensures witnesses[positions[i]].key in Vouching(c, note, log, witnesses) {
      assert tags[0].0 != tags[i + 1].0 && tags[0].1 != tags[i + 1].1;
      assert !Aliased(c, log, witnesses[positions[i]]);
    }
    SubsetSize(KeysAt(witnesses, positions), Vouching(c, note, log, witnesses));
  }

  /** Where no key goes by two names, an accepted note has `threshold` different keys besides the log's behind it. */
  lemma EnoughKeys(c: Crypto, s: Bytes, log: Witness, witnesses: seq<Witness>, threshold: nat)
    requires Witnessed(c, s, log, witnesses, threshold).Ok? && Unaliased(c, log, witnesses)
    ensures DecodeNote(s).Ok? && |Vouching(c, DecodeNote(s).value, log, witnesses)| >= threshold
  {
    hide DecodeNote, ParseText, SignedBy, Counted, Independent, Unaliased, Vouching;
    var note := DecodeNote(s).value;
    var positions := Counted(c, note, log, witnesses, |witnesses|).value;
    CountedAreIndependent(c, note, log, witnesses, |witnesses|);
    IndependentKeys(c, note, log, witnesses, positions);
  }

  // ---------------------------------------------------------------- the condition is exact

  lemma {:induction false} KeysFew(witnesses: seq<Witness>)
    ensures |set i | 0 <= i < |witnesses| :: witnesses[i].key| <= |witnesses|
    decreases |witnesses|
  {
    if witnesses != [] {
      var n := |witnesses| - 1;
      var front := witnesses[..n];
      KeysFew(front);
      var keys := set i | 0 <= i < |witnesses| :: witnesses[i].key;
      var fewer := set i | 0 <= i < |front| :: front[i].key;
      assert forall i :: 0 <= i < n ==> front[i] == witnesses[i];
      assert keys == fewer + {witnesses[n].key};
    }
  }

  /** A list one entry of which adds no key to the others has fewer keys than entries. */
  lemma OneTooMany(c: Crypto, note: SignedNote, log: Witness, witnesses: seq<Witness>, j: nat)
    requires j < |witnesses|
    requires witnesses[j].key == log.key
            || exists i :: 0 <= i < |witnesses| && i != j && witnesses[i].key == witnesses[j].key
    ensures |Vouching(c, note, log, witnesses)| < |witnesses|
  {
    hide Backs;
    var others := witnesses[..j] + witnesses[j + 1..];
    var keys := set i | 0 <= i < |others| :: others[i].key;
    assert forall i :: 0 <= i < |witnesses| && i != j ==> witnesses[i] == others[if i < j then i else i - 1];
    assert Vouching(c, note, log, witnesses) <= keys;
    KeysFew(others);
    SubsetSize(Vouching(c, note, log, witnesses), keys);
  }

  /**
   For a list of witnesses told apart by name and key id: every note that is accepted, at whatever
   threshold, has that many different keys behind it if and only if no key is listed twice or is the log's.
   */
  lemma EnoughKeysExactly(c: Crypto, cp: Checkpoint, log: Signer, named: seq<Named>, signed: seq<iset<Bytes>>)
    requires Distinguished(c, Everyone(cp, log, named)) && |named| < MAX_SIGNATURES
    requires AllAttest(c, Everyone(cp, log, named), signed, Text(cp))
    ensures var public, witnesses := Witness(cp.origin, log.key), PublicOf(named);
            Unaliased(c, public, witnesses)
            <==> forall s: Bytes, threshold: nat :: Witnessed(c, s, public, witnesses, threshold).Ok? ==>
                   DecodeNote(s).Ok? && |Vouching(c, DecodeNote(s).value, public, witnesses)| >= threshold
  {
    hide Text, Witnessed, DecodeNote, EncodeNote, Distinguished, AllAttest, CosignAll, Vouching, PublicOf, Aliased;
    var public, witnesses := Witness(cp.origin, log.key), PublicOf(named);
    if Unaliased(c, public, witnesses) {
      forall s: Bytes, threshold: nat | Witnessed(c, s, public, witnesses, threshold).Ok?
        ensures DecodeNote(s).Ok? && |Vouching(c, DecodeNote(s).value, public, witnesses)| >= threshold
      {
        EnoughKeys(c, s, public, witnesses, threshold);
      }
    } else {
      HonestNoteAccepted(c, cp, log, named, signed, |named|);
      var s := EncodeNote(CosignAll(c, cp, log, named).value);
      assert Witnessed(c, s, public, witnesses, |named|).Ok?;
      if DecodeNote(s).Ok? {
        AliasedTooFew(c, DecodeNote(s).value, public, witnesses);
      }
    }
  }

  lemma AliasedTooFew(c: Crypto, note: SignedNote, log: Witness, witnesses: seq<Witness>)
    requires !Unaliased(c, log, witnesses)
    ensures |Vouching(c, note, log, witnesses)| < |witnesses|
  {
    hide TagOf, Vouching;
    if i :| 0 <= i < |witnesses| && Aliased(c, log, witnesses[i]) {
      OneTooMany(c, note, log, witnesses, i);
    } else {
      var i, j :| 0 <= i < j < |witnesses| && Aliased(c, witnesses[i], witnesses[j]);
      OneTooMany(c, note, log, witnesses, j);
    }
  }

  // ---------------------------------------------------------------- lists that count one key twice

  /** For every checkpoint there is a log that is accepted, at threshold one, as its own only witness. */
  lemma LogAsWitness(cp: Checkpoint) returns (c: Crypto, s: Bytes, name: Bytes, key: Bytes)
    requires ValidName(cp.origin)
    ensures Witnessed(c, s, Witness(cp.origin, key), [Witness(name, key)], 1) == Ok(cp)
  {
    hide Text, Witnessed, EncodeNote, CosignAll, Notary, Telling, OtherName, AllAttest, TagOf, ValidName;
    name, key := OtherName(cp.origin, cp.origin), Zeros(VERIFYING_KEY_LENGTH);
    var mark := Mark(name, key);
    var book: map<Bytes, iset<Bytes>> := map[key := iset{Payload(cp)}];
    c := Notary(Telling(mark, mark), book);
    HashOf(Telling(mark, mark), book);
    var named := [Named(name, MarkOf(key))];
    var all := Everyone(cp, MarkOf(key), named);
    assert all == [Named(cp.origin, MarkOf(key)), named[0]];
    var signed := NotaryAttests(Telling(mark, mark), book, cp, all);
    IdOf(c, mark, mark, Witness(cp.origin, key));
    IdOf(c, mark, mark, Witness(name, key));
    if Mark(cp.origin, key) == mark {
      MarksTellNames(cp.origin, name, key);
    }
    HonestNoteAccepted(c, cp, MarkOf(key), named, signed, 1);
    s := EncodeNote(CosignAll(c, cp, MarkOf(key), named).value);
    assert PublicOf(named) == [Witness(name, key)];
  }

  /** And there is one that is accepted, at threshold two, with one witness under two names. */
  lemma OneKeyTwice(cp: Checkpoint) returns (c: Crypto, s: Bytes, log: Bytes, a: Bytes, b: Bytes, key: Bytes)
    requires ValidName(cp.origin)
    ensures key != log && Witnessed(c, s, Witness(cp.origin, log), [Witness(a, key), Witness(b, key)], 2) == Ok(cp)
  {
    hide Text, Witnessed, EncodeNote, CosignAll, Notary, Telling, OtherName, AllAttest, TagOf, ValidName, Mark;
    log, key := Zeros(VERIFYING_KEY_LENGTH), Zeros(VERIFYING_KEY_LENGTH - 1) + [1];
    assert key[VERIFYING_KEY_LENGTH - 1] != log[VERIFYING_KEY_LENGTH - 1];
    a := OtherName(cp.origin, cp.origin);
    b := OtherName(cp.origin, a);
    var hash := Telling(Mark(a, key), Mark(b, key));
    var book: map<Bytes, iset<Bytes>> := map[log := iset{Payload(cp)}, key := iset{Payload(cp)}];
    c := Notary(hash, book);
    HashOf(hash, book);
    var named := [Named(a, MarkOf(key)), Named(b, MarkOf(key))];
    var all := Everyone(cp, MarkOf(log), named);
    assert all == [Named(cp.origin, MarkOf(log)), named[0], named[1]];
    var signed := NotaryAttests(hash, book, cp, all);
    IdOf(c, Mark(a, key), Mark(b, key), Witness(cp.origin, log));
    IdOf(c, Mark(a, key), Mark(b, key), Witness(a, key));
    IdOf(c, Mark(a, key), Mark(b, key), Witness(b, key));
    if Mark(a, key) == Mark(b, key) {
      MarksTellNames(a, b, key);
    }
    KeysTellMarks(cp.origin, log, a, key);
    KeysTellMarks(cp.origin, log, b, key);
    HonestNoteAccepted(c, cp, MarkOf(log), named, signed, 2);
    s := EncodeNote(CosignAll(c, cp, MarkOf(log), named).value);
    assert PublicOf(named) == [Witness(a, key), Witness(b, key)];
  }
}
