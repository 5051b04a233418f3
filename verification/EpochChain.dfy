/** Epoch keys: a public hash chain and the secrets not yet erased (crates/hide-epoch/src/lib.rs). */
module EpochChains {
  import opened Bytes
  import opened Hashing
  import opened Results

  const MAX_CHAIN_ENTRIES := 1_000_000
  const PUBLIC_KEY_LENGTH := 1216

  datatype EpochError =
    | Erased(number: nat)
    | UnknownEpoch(number: nat)
    | MalformedChain
    | TooManyRecords(count: nat)
    | BrokenChain(expected: nat, found: nat)
    | BrokenHash(number: nat)
    | WrongKeyLength(number: nat, actual: nat)
    | SecretMismatch(number: nat)
    | DuplicateSecret(number: nat)
    | Crypto

  datatype EpochRecord = EpochRecord(number: u64, publicKey: Blob, link: Digest)

  type Seed = s: Bytes | |s| == 32 witness Zeros(32)

  /** An epoch key pair generator: any function from seeds to keys of the right length. */
  type KeyOf = Seed -> Blob

  ghost predicate WellSized(keyOf: KeyOf) {
    forall seed :: |keyOf(seed)| == PUBLIC_KEY_LENGTH
  }

  const NO_RECORD: Digest := Zeros(32)

  function ChainInput(previous: Digest, number: u64, publicKey: Blob): Bytes {
    Ascii("HIDE/0.6 epoch chain") + previous + U64(number) + Field(publicKey)
  }

  lemma ChainInputInjective(p: Digest, n: u64, k: Blob, p': Digest, n': u64, k': Blob)
    requires ChainInput(p, n, k) == ChainInput(p', n', k')
    ensures p == p' && n == n' && k == k'
  {
    var info := Ascii("HIDE/0.6 epoch chain");
    SplitEqual(info + p + U64(n), Field(k), info + p' + U64(n'), Field(k'));
    SplitEqual(info + p, U64(n), info + p', U64(n'));
    SplitEqual(info, p, info, p');
    U64Injective(n, n');
    assert Field(k) + [] == Field(k) && Field(k') + [] == Field(k');
    FieldSplit(k, [], k', []);
  }

  // ---------------------------------------------------------------- the public history

  function HeadOf(records: seq<EpochRecord>): Digest {
    if records == [] then NO_RECORD else records[|records| - 1].link
  }

  function CheckRecord(h: Hasher, before: seq<EpochRecord>, record: EpochRecord): Outcome<EpochError> {
    if record.number != |before| then Fail(BrokenChain(|before|, record.number))
    else if |record.publicKey| != PUBLIC_KEY_LENGTH then Fail(WrongKeyLength(record.number, |record.publicKey|))
    else if h(ChainInput(HeadOf(before), record.number, record.publicKey)) != record.link
      then Fail(BrokenHash(record.number))
    else Pass
  }

  /** The first fault met while walking the chain, if any. */
  function CheckRecords(h: Hasher, records: seq<EpochRecord>): Outcome<EpochError> {
    if records == [] then Pass
    else
      var before := records[..|records| - 1];
      match CheckRecords(h, before)
      case Fail(error) => Fail(error)
      case Pass => CheckRecord(h, before, records[|records| - 1])
  }

  function ChainVerdict(h: Hasher, records: seq<EpochRecord>): Outcome<EpochError> {
    if |records| > MAX_CHAIN_ENTRIES then Fail(TooManyRecords(|records|)) else CheckRecords(h, records)
  }

  lemma {:induction false} FaultPersists(h: Hasher, records: seq<EpochRecord>, k: nat)
    requires k <= |records| && CheckRecords(h, records[..k]).Fail?
    ensures CheckRecords(h, records) == CheckRecords(h, records[..k])
    decreases |records|
  {
    if k < |records| {
      assert records[..|records| - 1][..k] == records[..k];
      FaultPersists(h, records[..|records| - 1], k);
    } else {
      assert records[..k] == records;
    }
  }

  lemma RecordFacts(h: Hasher, records: seq<EpochRecord>, k: nat)
    requires CheckRecords(h, records) == Pass && k < |records|
    ensures CheckRecords(h, records[..k]) == Pass
    ensures CheckRecord(h, records[..k], records[k]) == Pass
  {
    hide CheckRecord;
    if CheckRecords(h, records[..k + 1]).Fail? {
      FaultPersists(h, records, k + 1);
    }
    var upTo := records[..k + 1];
    assert upTo[..k] == records[..k] && upTo[k] == records[k] && |upTo| == k + 1;
    assert CheckRecords(h, upTo) == Pass;
  }

  method Verify(h: Hasher, records: seq<EpochRecord>) returns (outcome: Outcome<EpochError>)
    ensures outcome == ChainVerdict(h, records)
  {
    if |records| > MAX_CHAIN_ENTRIES {
      return Fail(TooManyRecords(|records|));
    }
    var previous := NO_RECORD;
    for index := 0 to |records|
      invariant CheckRecords(h, records[..index]) == Pass
      invariant previous == HeadOf(records[..index])
    {
      var record := records[index];
      assert records[..index + 1][..index] == records[..index];
      if CheckRecords(h, records[..index + 1]).Fail? {
        FaultPersists(h, records, index + 1);
      }
      if record.number != index {
        return Fail(BrokenChain(index, record.number));
      }
      if |record.publicKey| != PUBLIC_KEY_LENGTH {
        return Fail(WrongKeyLength(record.number, |record.publicKey|));
      }
      if h(ChainInput(previous, record.number, record.publicKey)) != record.link {
        return Fail(BrokenHash(record.number));
      }
      previous := record.link;
    }
    assert records[..|records|] == records;
    return Pass;
  }

  ghost function ChainInputs(records: seq<EpochRecord>): set<Bytes> {
    set k | 0 <= k < |records| :: ChainInput(HeadOf(records[..k]), records[k].number, records[k].publicKey)
  }

  lemma ChainInputsPrefix(records: seq<EpochRecord>, k: nat)
    requires k <= |records|
    ensures ChainInputs(records[..k]) <= ChainInputs(records)
  {
    hide ChainInput, HeadOf;
    forall x | x in ChainInputs(records[..k])
      ensures x in ChainInputs(records)
    {
      var i :| 0 <= i < k
            && x == ChainInput(HeadOf(records[..k][..i]), records[..k][i].number, records[..k][i].publicKey);
      assert records[..k][..i] == records[..i];
      assert x == ChainInput(HeadOf(records[..i]), records[i].number, records[i].publicKey);
    }
  }

  /** Two verified, non-empty chains with one head are one chain, or a collision is at hand. */
  lemma {:induction false} ChainHeadCommits(h: Hasher, a: seq<EpochRecord>, b: seq<EpochRecord>)
    requires a != [] && b != [] && CheckRecords(h, a) == Pass && CheckRecords(h, b) == Pass
    requires HeadOf(a) == HeadOf(b)
    ensures a == b || HasCollision(h, ChainInputs(a) + ChainInputs(b))
    decreases |a|
  {
    hide *;
    SameHeadSameRecord(h, a, b);
    var m, n := |a| - 1, |b| - 1;
    assert a == a[..m] + [a[m]] && b == b[..n] + [b[n]];
    if m > 0 && n > 0 && HeadOf(a[..m]) == HeadOf(b[..n]) {
      RecordFacts(h, a, m);
      RecordFacts(h, b, n);
      ChainHeadCommits(h, a[..m], b[..n]);
      ChainInputsPrefix(a, m);
      ChainInputsPrefix(b, n);
      UnionMonotonic(h, ChainInputs(a[..m]), ChainInputs(a), ChainInputs(b[..n]), ChainInputs(b));
    }
  }

  lemma SameHeadSameRecord(h: Hasher, a: seq<EpochRecord>, b: seq<EpochRecord>)
    requires a != [] && b != [] && CheckRecords(h, a) == Pass && CheckRecords(h, b) == Pass
    requires HeadOf(a) == HeadOf(b)
    ensures (|a| == |b| && a[|a| - 1] == b[|b| - 1] && HeadOf(a[..|a| - 1]) == HeadOf(b[..|b| - 1]))
         || HasCollision(h, ChainInputs(a) + ChainInputs(b))
  {
    var m, n := |a| - 1, |b| - 1;
    RecordFacts(h, a, m);
    RecordFacts(h, b, n);
    var x := ChainInput(HeadOf(a[..m]), a[m].number, a[m].publicKey);
    var y := ChainInput(HeadOf(b[..n]), b[n].number, b[n].publicKey);
    EqualDigests(h, ChainInputs(a) + ChainInputs(b), x, y);
    if x == y {
      ChainInputInjective(HeadOf(a[..m]), a[m].number, a[m].publicKey, HeadOf(b[..n]), b[n].number, b[n].publicKey);
    }
  }

  // ---------------------------------------------------------------- the recipient's own view

  /** Which slots hold a secret, and that each is the secret of its own record. */
  ghost predicate Matches(keyOf: KeyOf, records: seq<EpochRecord>, secrets: seq<Option<Seed>>) {
    && |secrets| == |records|
    && forall i :: 0 <= i < |records| && secrets[i].Some? ==> keyOf(secrets[i].value) == records[i].publicKey
  }

  function NextRecord(h: Hasher, keyOf: KeyOf, records: seq<EpochRecord>, seed: Seed): EpochRecord
    requires |records| < 0x1_0000_0000_0000_0000
  {
    EpochRecord(|records|, keyOf(seed), h(ChainInput(HeadOf(records), |records|, keyOf(seed))))
  }

  /** Puts supplied secrets into their slots, or finds the first that does not belong. */
  function Place(keyOf: KeyOf, records: seq<EpochRecord>, held: seq<Option<Seed>>, supplied: seq<(u64, Seed)>)
    : (result: Result<seq<Option<Seed>>, EpochError>)
    requires |held| == |records|
    ensures result.Ok? ==> |result.value| == |held|
    decreases |supplied|
  {
    if supplied == [] then Ok(held)
    else
      var (number, seed) := supplied[0];
      if number >= |records| then Err(UnknownEpoch(number))
      else if keyOf(seed) != records[number].publicKey then Err(SecretMismatch(number))
      else if held[number].Some? then Err(DuplicateSecret(number))
      else Place(keyOf, records, held[number := Some(seed)], supplied[1..])
  }

  function NoSecrets(n: nat): (held: seq<Option<Seed>>)
    ensures |held| == n
  {
    seq(n, _ => None)
  }

  function Restored(h: Hasher, keyOf: KeyOf, records: seq<EpochRecord>, supplied: seq<(u64, Seed)>)
    : Result<seq<Option<Seed>>, EpochError>
  {
    match ChainVerdict(h, records)
    case Fail(error) => Err(error)
    case Pass =>
      if records == [] then Err(MalformedChain)
      else Place(keyOf, records, NoSecrets(|records|), supplied)
  }

  /** Placed secrets are exactly the supplied ones; every other slot is as it was. */
  lemma {:induction false} PlaceMeaning(keyOf: KeyOf, records: seq<EpochRecord>, held: seq<Option<Seed>>,
                                        supplied: seq<(u64, Seed)>)
    requires Matches(keyOf, records, held) && Place(keyOf, records, held, supplied).Ok?
    ensures var placed := Place(keyOf, records, held, supplied).value;
            && Matches(keyOf, records, placed)
            && (forall j :: 0 <= j < |supplied| ==>
                  supplied[j].0 < |records| && placed[supplied[j].0] == Some(supplied[j].1))
            && (forall i :: 0 <= i < |records| && placed[i] != held[i] ==>
                  held[i].None? && placed[i].Some? && (i, placed[i].value) in supplied)
            && (forall i :: 0 <= i < |records| && held[i].Some? ==> placed[i] == held[i])
    decreases |supplied|
  {
    if supplied != [] {
      var (number, seed) := supplied[0];
      PlaceMeaning(keyOf, records, held[number := Some(seed)], supplied[1..]);
    }
  }

  class EpochChain {
    const hasher: Hasher
    const keyOf: KeyOf
    var records: seq<EpochRecord>
    var secrets: seq<Option<Seed>>

    ghost predicate Valid()
      reads this
    {
      && records != [] && ChainVerdict(hasher, records) == Pass
      && Matches(keyOf, records, secrets)
    }

    constructor (hasher: Hasher, keyOf: KeyOf, records: seq<EpochRecord>, secrets: seq<Option<Seed>>)
      ensures this.hasher == hasher && this.keyOf == keyOf
      ensures this.records == records && this.secrets == secrets
    {
      this.hasher, this.keyOf := hasher, keyOf;
      this.records, this.secrets := records, secrets;
    }

    /** A chain of one epoch. `generated` is what the random source yields, if it yields. */
    static method Start(hasher: Hasher, keyOf: KeyOf, generated: Option<Seed>)
      returns (result: Result<EpochChain, EpochError>)
      requires WellSized(keyOf)
      ensures generated.None? ==> result == Err(Crypto)
      ensures generated.Some? ==>
                && result.Ok? && fresh(result.value) && result.value.Valid()
                && result.value.hasher == hasher && result.value.keyOf == keyOf
                && result.value.records == [NextRecord(hasher, keyOf, [], generated.value)]
                && result.value.secrets == [generated]
    {
      var chain := new EpochChain(hasher, keyOf, [], []);
      var advanced := chain.Advance(generated);
      if advanced.Err? {
        return Err(advanced.error);
      }
      return Ok(chain);
    }

    /** Mints the next epoch; every earlier secret stays exactly as it was. */
    method Advance(generated: Option<Seed>) returns (result: Result<u64, EpochError>)
      requires WellSized(keyOf)
      requires ChainVerdict(hasher, records) == Pass && Matches(keyOf, records, secrets)
      modifies this
      ensures |old(records)| >= MAX_CHAIN_ENTRIES ==>
                result == Err(TooManyRecords(|old(records)|)) && records == old(records) && secrets == old(secrets)
      ensures |old(records)| < MAX_CHAIN_ENTRIES && generated.None? ==>
                result == Err(Crypto) && records == old(records) && secrets == old(secrets)
      ensures |old(records)| < MAX_CHAIN_ENTRIES && generated.Some? ==>
                && result == Ok(|old(records)|)
                && records == old(records) + [NextRecord(hasher, keyOf, old(records), generated.value)]
                && secrets == old(secrets) + [generated]
                && Valid()
    {
      if |records| >= MAX_CHAIN_ENTRIES {
        return Err(TooManyRecords(|records|));
      }
      if generated.None? {
        return Err(Crypto);
      }
      var number := |records|;
      var publicKey := keyOf(generated.value);
      var record := EpochRecord(number, publicKey, hasher(ChainInput(HeadOf(records), number, publicKey)));
      assert (records + [record])[..number] == records;
      records := records + [record];
      secrets := secrets + [generated];
      return Ok(number);
    }

    /** Erases one epoch's secret and nothing else. */
    method Erase(number: u64) returns (outcome: Outcome<EpochError>)
      requires Valid()
      modifies this`secrets
      ensures Valid()
      ensures if number < |records| then outcome == Pass && secrets == old(secrets)[number := None]
              else outcome == Fail(UnknownEpoch(number)) && secrets == old(secrets)
    {
      if number >= |secrets| {
        return Fail(UnknownEpoch(number));
      }
      secrets := secrets[number := None];
      return Pass;
    }

    /** Erases every epoch before `keepFrom`, and counts the secrets that went. */
    method EraseBefore(keepFrom: u64) returns (erased: nat)
      requires Valid()
      modifies this`secrets
      ensures Valid()
      ensures forall i :: 0 <= i < |records| ==> secrets[i] == if i < keepFrom then None else old(secrets)[i]
      ensures erased == Held(old(secrets)) - Held(secrets)
    {
      erased := 0;
      for i := 0 to |secrets|
        invariant |secrets| == |old(secrets)|
        invariant forall j :: 0 <= j < i ==> secrets[j] == if j < keepFrom then None else old(secrets)[j]
        invariant forall j :: i <= j < |secrets| ==> secrets[j] == old(secrets)[j]
        invariant erased == Held(old(secrets)) - Held(secrets)
      {
        if i < keepFrom && secrets[i].Some? {
          HeldWithout(secrets, i);
          secrets := secrets[i := None];
          erased := erased + 1;
        }
      }
    }

    /** The chain of a published history and the secrets kept for it, if they fit it. */
    static method Restore(hasher: Hasher, keyOf: KeyOf, records: seq<EpochRecord>, supplied: seq<(u64, Seed)>)
      returns (result: Result<EpochChain, EpochError>)
      ensures match Restored(hasher, keyOf, records, supplied)
              case Err(error) => result == Err(error)
              case Ok(held) =>
                && result.Ok? && fresh(result.value) && result.value.Valid()
                && result.value.hasher == hasher && result.value.keyOf == keyOf
                && result.value.records == records && result.value.secrets == held
    {
      var verdict := Verify(hasher, records);
      if verdict.Fail? {
        return Err(verdict.error);
      }
      if records == [] {
        return Err(MalformedChain);
      }
      var held := NoSecrets(|records|);
      for k := 0 to |supplied|
        invariant Matches(keyOf, records, held)
        invariant Restored(hasher, keyOf, records, supplied) == Place(keyOf, records, held, supplied[k..])
      {
        var (number, seed) := supplied[k];
        assert supplied[k..][1..] == supplied[k + 1..];
        if number >= |records| {
          return Err(UnknownEpoch(number));
        }
        if keyOf(seed) != records[number].publicKey {
          return Err(SecretMismatch(number));
        }
        if held[number].Some? {
          return Err(DuplicateSecret(number));
        }
        held := held[number := Some(seed)];
      }
      var chain := new EpochChain(hasher, keyOf, records, held);
      return Ok(chain);
    }
  }

  /** How many secrets are held. */
  ghost function Held(secrets: seq<Option<Seed>>): nat {
    if secrets == [] then 0
    else Held(secrets[..|secrets| - 1]) + if secrets[|secrets| - 1].Some? then 1 else 0
  }

  lemma {:induction false} HeldWithout(secrets: seq<Option<Seed>>, i: nat)
    requires i < |secrets| && secrets[i].Some?
    ensures Held(secrets[i := None]) == Held(secrets) - 1
  {
    var last := |secrets| - 1;
    if i < last {
      HeldWithout(secrets[..last], i);
      assert secrets[i := None][..last] == secrets[..last][i := None];
    } else {
      assert secrets[i := None][..last] == secrets[..last];
    }
  }
}
