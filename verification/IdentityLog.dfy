/** Replaying an identity log, growing it, and what every accepted log guarantees. */
module IdentityLogs {
  import opened Bytes
  import opened Hashing
  import opened IdentityEntries
  import opened Memberships
  import opened Results
  import opened Signing

  const MAX_ENTRIES := 100_000

  // ---------------------------------------------------------------- replay

  /** The link an entry at position |entries| must build on. */
  function HeadOf(entries: seq<Entry>): Digest {
    if entries == [] then NO_LINK else entries[|entries| - 1].link
  }

  /** The membership after all of `entries`, or the first error met on the way. */
  function StateAfter(c: Crypto, entries: seq<Entry>, recovery: Bytes): Result<Members, IdentityError> {
    if entries == [] then Ok(NOBODY)
    else
      var before, entry := entries[..|entries| - 1], entries[|entries| - 1];
      match StateAfter(c, before, recovery)
      case Err(error) => Err(error)
      case Ok(m) =>
        if entry.sequence != |before| then Err(OutOfOrder(|before|, entry.sequence))
        else Applied(c, m, entry, recovery, HeadOf(before))
  }

  function Replayed(c: Crypto, entries: seq<Entry>, recovery: Bytes): Result<Members, IdentityError> {
    if entries == [] then Err(Empty)
    else if |entries| > MAX_ENTRIES then Err(TooManyEntries(|entries|))
    else if !entries[0].event.Create? then Err(BadRoot("another event"))
    else StateAfter(c, entries, recovery)
  }

  predicate Accepted(c: Crypto, entries: seq<Entry>, recovery: Bytes) {
    Replayed(c, entries, recovery).Ok?
  }

  lemma AcceptedBounds(c: Crypto, entries: seq<Entry>, recovery: Bytes)
    requires Accepted(c, entries, recovery)
    ensures 0 < |entries| <= MAX_ENTRIES && StateAfter(c, entries, recovery).Ok?
  {
  }

  lemma {:induction false} ErrorsPersist(c: Crypto, entries: seq<Entry>, recovery: Bytes, k: nat)
    requires k <= |entries| && StateAfter(c, entries[..k], recovery).Err?
    ensures StateAfter(c, entries, recovery) == StateAfter(c, entries[..k], recovery)
    decreases |entries|
  {
    if k < |entries| {
      assert entries[..|entries| - 1][..k] == entries[..k];
      ErrorsPersist(c, entries[..|entries| - 1], recovery, k);
    } else {
      assert entries[..k] == entries;
    }
  }

  /** Every step of an accepted log was accepted where it stood. */
  lemma StateBefore(c: Crypto, entries: seq<Entry>, recovery: Bytes, k: nat)
    requires k < |entries| && StateAfter(c, entries, recovery).Ok?
    ensures StateAfter(c, entries[..k], recovery).Ok? && StateAfter(c, entries[..k + 1], recovery).Ok?
    ensures entries[k].sequence == k
    ensures StateAfter(c, entries[..k + 1], recovery)
         == Applied(c, StateAfter(c, entries[..k], recovery).value, entries[k], recovery, HeadOf(entries[..k]))
  {
    if StateAfter(c, entries[..k + 1], recovery).Err? {
      ErrorsPersist(c, entries, recovery, k + 1);
    }
    assert entries[..k + 1][..k] == entries[..k];
  }

  /** What the acceptance of entry `k` consists of. */
  lemma StepFacts(c: Crypto, entries: seq<Entry>, recovery: Bytes, k: nat)
    requires Accepted(c, entries, recovery) && k < |entries|
    ensures StateAfter(c, entries[..k], recovery).Ok? && StateAfter(c, entries[..k + 1], recovery).Ok?
    ensures entries[k].sequence == k && (entries[k].event.Create? <==> k == 0)
    ensures var before := StateAfter(c, entries[..k], recovery).value;
            && Authorised(c, before, entries[k], recovery, HeadOf(entries[..k])) == Pass
            && Effect(c, before, entries[k]) == StateAfter(c, entries[..k + 1], recovery)
  {
    StateBefore(c, entries, recovery, k);
    hide StateAfter, Effect, SignedBytes;
  }

  /** Every non-empty prefix of an accepted log is an accepted log. */
  lemma PrefixAccepted(c: Crypto, entries: seq<Entry>, recovery: Bytes, k: nat)
    requires Accepted(c, entries, recovery) && 0 < k <= |entries|
    ensures Accepted(c, entries[..k], recovery)
  {
    StateBefore(c, entries, recovery, k - 1);
  }

  /** Replays a log as a stranger would: one membership, updated entry by entry. */
  method Replay(c: Crypto, entries: seq<Entry>, recovery: Bytes) returns (result: Result<Membership, IdentityError>)
    ensures match Replayed(c, entries, recovery)
            case Ok(m) => result.Ok? && fresh(result.value) && result.value.State() == m
            case Err(error) => result == Err(error)
  {
    if entries == [] {
      return Err(Empty);
    }
    if |entries| > MAX_ENTRIES {
      return Err(TooManyEntries(|entries|));
    }
    if !entries[0].event.Create? {
      return Err(BadRoot("another event"));
    }
    var membership := new Membership();
    var previous := NO_LINK;
    for index := 0 to |entries|
      invariant fresh(membership)
      invariant StateAfter(c, entries[..index], recovery) == Ok(membership.State())
      invariant previous == HeadOf(entries[..index])
    {
      var entry := entries[index];
      var upTo := entries[..index + 1];
      assert upTo[..index] == entries[..index] && upTo[index] == entry;
      if entry.sequence != index {
        ErrorsPersist(c, entries, recovery, index + 1);
        return Err(OutOfOrder(index, entry.sequence));
      }
      var outcome := membership.Apply(c, entry, recovery, previous);
      if outcome.Fail? {
        ErrorsPersist(c, entries, recovery, index + 1);
        return Err(outcome.error);
      }
      previous := entry.link;
    }
    assert entries[..|entries|] == entries;
    return Ok(membership);
  }

  // ---------------------------------------------------------------- the log object

  /** The entry `append` would add: next in sequence, linked to the head, signed by `author`. */
  function Candidate(c: Crypto, entries: seq<Entry>, author: Signer, event: Event): Entry
    requires |entries| < 0x1_0000_0000_0000_0000
  {
    var signerId := DeviceId(c.hash, author.key);
    var signed := SignedBytes(HeadOf(entries), |entries|, event, signerId);
    var signature := Sign(author, ENTRY_CONTEXT, signed);
    Entry(|entries|, event, signerId, c.hash(LinkInput(signed, signature)), signature)
  }

  /** What the founding device signs. */
  function FoundingMessage(c: Crypto, founder: Signer, labelText: Blob): Bytes
    requires ValidKey(c, founder.key)
  {
    SignedBytes(NO_LINK, 0, Event.Create(founder.key, labelText), DeviceId(c.hash, founder.key))
  }

  /** What the author of the next entry signs. */
  function NextMessage(c: Crypto, entries: seq<Entry>, author: Signer, event: Event): Bytes
    requires |entries| < 0x1_0000_0000_0000_0000
  {
    SignedBytes(HeadOf(entries), |entries|, event, DeviceId(c.hash, author.key))
  }

  class IdentityLog {
    const crypto: Crypto
    const recovery: Bytes
    var entries: seq<Entry>

    predicate Valid()
      reads this
    {
      Accepted(crypto, entries, recovery)
    }

    /** Wraps entries that are known to replay. */
    constructor (crypto: Crypto, entries: seq<Entry>, recovery: Bytes)
      ensures this.crypto == crypto && this.entries == entries && this.recovery == recovery
    {
      this.crypto, this.entries, this.recovery := crypto, entries, recovery;
    }

    /** Starts an identity with a log that verifies, unless the label is too long. */
    static method Create(c: Crypto, founder: Signer, ghost signed: iset<Bytes>, labelText: Blob, recovery: Bytes)
      returns (result: Result<IdentityLog, IdentityError>)
      requires ValidKey(c, founder.key)
      requires Attests(c, founder, signed, ENTRY_CONTEXT, FoundingMessage(c, founder, labelText))
      ensures |labelText| > MAX_LABEL_BYTES ==> result == Err(LabelTooLong)
      ensures |labelText| <= MAX_LABEL_BYTES ==>
                && result.Ok? && fresh(result.value) && result.value.Valid()
                && result.value.crypto == c && result.value.recovery == recovery
                && result.value.entries == [Candidate(c, [], founder, Event.Create(founder.key, labelText))]
    {
      if |labelText| > MAX_LABEL_BYTES {
        return Err(LabelTooLong);
      }
      var event := Event.Create(founder.key, labelText);
      var signerId := DeviceId(c.hash, founder.key);
      var message := SignedBytes(NO_LINK, 0, event, signerId);
      var signature := Sign(founder, ENTRY_CONTEXT, message);
      var root := Entry(0, event, signerId, c.hash(LinkInput(message, signature)), signature);
      FounderAccepted(c, founder, signed, labelText, recovery);
      var log := new IdentityLog(c, [root], recovery);
      return Ok(log);
    }

    /** A log for somebody else's entries, once they have replayed. */
    static method FromEntries(c: Crypto, entries: seq<Entry>, recovery: Bytes)
      returns (result: Result<IdentityLog, IdentityError>)
      ensures match Replayed(c, entries, recovery)
              case Ok(_) => result.Ok? && fresh(result.value) && result.value.Valid()
                            && result.value.crypto == c && result.value.recovery == recovery
                            && result.value.entries == entries
              case Err(error) => result == Err(error)
    {
      var replayed := Replay(c, entries, recovery);
      if replayed.Err? {
        return Err(replayed.error);
      }
      var log := new IdentityLog(c, entries, recovery);
      return Ok(log);
    }

    /** The devices trusted now. The replay always succeeds here, since the log is valid. */
    method CurrentMembership() returns (membership: Membership)
      requires Valid()
      ensures fresh(membership)
      ensures Replayed(crypto, entries, recovery) == Ok(membership.State())
    {
      var replayed := Replay(crypto, entries, recovery);
      if replayed.Ok? {
        membership := replayed.value;
      } else {
        membership := new Membership();
      }
    }

    /**
     Appends exactly what a stranger's replay of the longer log would accept; otherwise changes
     nothing.
     */
    method Append(author: Signer, event: Event) returns (result: Result<u64, IdentityError>)
      requires Valid()
      modifies this
      ensures Valid()
      ensures var candidate := Candidate(crypto, old(entries), author, event);
              if Accepted(crypto, old(entries) + [candidate], recovery)
              then result == Ok(|old(entries)|) && entries == old(entries) + [candidate]
              else result.Err? && entries == old(entries)
      ensures result.Err? && |entries| >= MAX_ENTRIES ==> result.error == TooManyEntries(|entries|)
      ensures result.Err? && |entries| < MAX_ENTRIES ==>
                Replayed(crypto, entries + [Candidate(crypto, entries, author, event)], recovery) == Err(result.error)
    {
      if |entries| >= MAX_ENTRIES {
        return Err(TooManyEntries(|entries|));
      }
      ghost var longer := entries + [Candidate(crypto, entries, author, event)];
      assert longer[..|entries|] == entries;
      if !event.Revoke? && |event.labelText| > MAX_LABEL_BYTES {
        return Err(LabelTooLong);
      }
      var previous := HeadOf(entries);
      var signerId := DeviceId(crypto.hash, author.key);
      var signed := SignedBytes(previous, |entries|, event, signerId);
      var signature := Sign(author, ENTRY_CONTEXT, signed);
      var candidate := Entry(|entries|, event, signerId, crypto.hash(LinkInput(signed, signature)), signature);
      var membership := CurrentMembership();
      var outcome := membership.Apply(crypto, candidate, recovery, previous);
      if outcome.Fail? {
        return Err(outcome.error);
      }
      result := Ok(|entries|);
      entries := entries + [candidate];
    }

    function Head(): Digest
      reads this
    {
      HeadOf(entries)
    }

    function Root(): Digest
      reads this
    {
      if entries == [] then NO_LINK else entries[0].link
    }
  }

  // ---------------------------------------------------------------- honest appends succeed

  lemma FounderAccepted(c: Crypto, founder: Signer, signed: iset<Bytes>, labelText: Blob, recovery: Bytes)
    requires ValidKey(c, founder.key) && |labelText| <= MAX_LABEL_BYTES
    requires Attests(c, founder, signed, ENTRY_CONTEXT, FoundingMessage(c, founder, labelText))
    ensures Accepted(c, [Candidate(c, [], founder, Event.Create(founder.key, labelText))], recovery)
  {
    AttestedVerifies(c, founder, signed, ENTRY_CONTEXT, FoundingMessage(c, founder, labelText));
    hide Attests, Verifies;
    var root := Candidate(c, [], founder, Event.Create(founder.key, labelText));
    assert [root][..0] == [];
    assert StateAfter(c, [], recovery) == Ok(NOBODY);
    assert Authorised(c, NOBODY, root, recovery, NO_LINK) == Pass;
  }

  /**
   Who may append what: a trusted device can enrol a new one, and revoke any but the last; the
   recovery key can recover.
   */
  predicate MayAppend(c: Crypto, m: Members, recovery: Bytes, key: Bytes, event: Event) {
    var id := DeviceId(c.hash, key);
    && LabelFits(event)
    && match event
       case Create(_, _) => false
       case Recover(device, _) => key == recovery && ValidKey(c, device)
       case Enrol(device, _) =>
         && id in m.devices && m.devices[id].key == key
         && ValidKey(c, device) && DeviceId(c.hash, device) !in m.devices
       case Revoke(target) =>
         && id in m.devices && m.devices[id].key == key
         && target in m.devices && |m.devices| > 1
  }

  lemma HonestAppendAccepted(
      c: Crypto, entries: seq<Entry>, recovery: Bytes, author: Signer, signed: iset<Bytes>, event: Event)
    requires Accepted(c, entries, recovery) && |entries| < MAX_ENTRIES
    requires MayAppend(c, Replayed(c, entries, recovery).value, recovery, author.key, event)
    requires Attests(c, author, signed, ENTRY_CONTEXT, NextMessage(c, entries, author, event))
    ensures Accepted(c, entries + [Candidate(c, entries, author, event)], recovery)
  {
    AttestedVerifies(c, author, signed, ENTRY_CONTEXT, NextMessage(c, entries, author, event));
    hide Attests, Verifies;
    var longer := entries + [Candidate(c, entries, author, event)];
    assert longer[..|entries|] == entries && longer[0] == entries[0];
  }
}
