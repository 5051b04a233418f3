/** What an accepted identity log says about each device, about authority and about itself. */
module IdentityHistory {
  import opened Bytes
  import opened Hashing
  import opened IdentityEntries
  import opened IdentityLogs
  import opened Memberships
  import opened Results
  import opened Signing

  // ---------------------------------------------------------------- membership, device by device

  predicate Enrols(h: Hasher, event: Event, id: Digest) {
    !event.Revoke? && DeviceId(h, event.device) == id
  }

  /** Where one device stands, read off the history without any membership being kept. */
  datatype Standing = Unknown | Trusted(since: nat) | Removed(at: nat)

  function StandingOf(h: Hasher, entries: seq<Entry>, id: Digest): Standing {
    if entries == [] then Unknown
    else
      var last := |entries| - 1;
      var event, before := entries[last].event, StandingOf(h, entries[..last], id);
      if Enrols(h, event, id) then Trusted(last)
      else if before.Trusted? && (event.Recover? || event == Revoke(id)) then Removed(last)
      else before
  }

  /** The record a device has when entry `k` is the one that enrolled it. */
  function RecordAt(entries: seq<Entry>, id: Digest, k: nat): Device
    requires k < |entries| && !entries[k].event.Revoke? && k < 0x1_0000_0000_0000_0000
  {
    Device(id, entries[k].event.device, entries[k].event.labelText, k)
  }

  ghost predicate Explains(c: Crypto, entries: seq<Entry>, m: Members, id: Digest) {
    match StandingOf(c.hash, entries, id)
    case Unknown => id !in m.devices && id !in m.revoked
    case Trusted(k) =>
      && k < |entries| && !entries[k].event.Revoke? && k < 0x1_0000_0000_0000_0000
      && id in m.devices && m.devices[id] == RecordAt(entries, id, k) && id !in m.revoked
      && ValidKey(c, m.devices[id].key) && DeviceId(c.hash, m.devices[id].key) == id
    case Removed(k) => id !in m.devices && id in m.revoked && m.revoked[id] == k
  }

  /**
   In an accepted log, every device is in exactly the map, and under exactly the entry, that the
   history alone gives it: trusted since the entry that last enrolled it, or revoked by the entry
   that ended that, or never known.
   */
  lemma {:induction false} MembershipExplained(c: Crypto, entries: seq<Entry>, recovery: Bytes, id: Digest)
    requires entries == [] || Accepted(c, entries, recovery)
    ensures StateAfter(c, entries, recovery).Ok?
    ensures Explains(c, entries, StateAfter(c, entries, recovery).value, id)
    decreases |entries|
  {
    if entries != [] {
      var last := |entries| - 1;
      StepFacts(c, entries, recovery, last);
      assert |entries| <= MAX_ENTRIES;
      if last > 0 {
        PrefixAccepted(c, entries, recovery, last);
      }
      hide *;
      assert entries[..last + 1] == entries;
      MembershipExplained(c, entries[..last], recovery, id);
      EffectExplained(c, entries, StateAfter(c, entries[..last], recovery).value,
                      StateAfter(c, entries, recovery).value, id);
    }
  }

  /** One entry keeps every device's standing explained. */
  lemma EffectExplained(c: Crypto, entries: seq<Entry>, before: Members, after: Members, id: Digest)
    requires 0 < |entries| < 0x1_0000_0000_0000_0000
    requires var last := |entries| - 1;
             && entries[last].sequence == last && (entries[last].event.Create? ==> last == 0)
             && Effect(c, before, entries[last]) == Ok(after)
             && Explains(c, entries[..last], before, id)
    ensures Explains(c, entries, after, id)
  {
    var last := |entries| - 1;
    assert StandingOf(c.hash, entries[..0], id) == Unknown;
    match entries[last].event
    case Create(_, _) =>
    case Enrol(_, _) =>
    case Revoke(_) =>
    case Recover(_, _) =>
  }

  /** What a standing means in terms of the entries. */
  lemma {:induction false} StandingMeaning(h: Hasher, entries: seq<Entry>, id: Digest)
    ensures match StandingOf(h, entries, id)
            case Unknown => forall j :: 0 <= j < |entries| ==> !Enrols(h, entries[j].event, id)
            case Trusted(k) =>
              && k < |entries| && Enrols(h, entries[k].event, id)
              && forall j :: k < j < |entries| ==>
                   && !Enrols(h, entries[j].event, id) && !entries[j].event.Recover? && entries[j].event != Revoke(id)
            case Removed(k) =>
              && k < |entries| && (entries[k].event.Recover? || entries[k].event == Revoke(id))
              && StandingOf(h, entries[..k], id).Trusted?
              && forall j :: k <= j < |entries| ==> !Enrols(h, entries[j].event, id)
    decreases |entries|
  {
    if entries != [] {
      var before := entries[..|entries| - 1];
      StandingMeaning(h, before, id);
      var standing := StandingOf(h, before, id);
      if standing.Removed? {
        assert before[..standing.at] == entries[..standing.at];
      }
    }
  }

  /** An identity never runs out of devices. */
  lemma NeverEmpty(c: Crypto, entries: seq<Entry>, recovery: Bytes)
    requires Accepted(c, entries, recovery)
    ensures Replayed(c, entries, recovery).value.devices != map[]
  {
    hide StateAfter, Effect, Authorised;
    var last := |entries| - 1;
    StepFacts(c, entries, recovery, last);
    assert entries[..last + 1] == entries;
    EffectLeavesOne(c, StateAfter(c, entries[..last], recovery).value, entries[last]);
  }

  lemma EffectLeavesOne(c: Crypto, before: Members, entry: Entry)
    requires Effect(c, before, entry).Ok?
    ensures Effect(c, before, entry).value.devices != map[]
  {
    hide DeviceId, ParseKey;
    var after := Effect(c, before, entry).value;
    if entry.event.Revoke? {
      OneLess(before.devices, entry.event.target);
    } else {
      assert exists id :: id in after.devices by {
        assert DeviceId(c.hash, ParseKey(c, entry.event.device, entry.sequence).value) in after.devices;
      }
    }
  }

  lemma OneLess<K, V>(m: map<K, V>, k: K)
    requires k in m && |m| != 1
    ensures m - {k} != map[]
  {
    assert |m.Keys - {k}| == |m| - 1;
    assert (m - {k}).Keys == m.Keys - {k};
  }

  // ---------------------------------------------------------------- authority at a position

  ghost predicate TrustedAt(c: Crypto, entries: seq<Entry>, recovery: Bytes, id: Digest, k: nat)
    requires k <= |entries|
  {
    StateAfter(c, entries[..k], recovery).Ok? && id in StateAfter(c, entries[..k], recovery).value.devices
  }

  /** Every entry is signed by the one party entitled to sign it where it stands. */
  lemma AuthorityAtPosition(c: Crypto, entries: seq<Entry>, recovery: Bytes, k: nat)
    requires Accepted(c, entries, recovery) && k < |entries|
    ensures var entry := entries[k];
            var signed := SignedBytes(HeadOf(entries[..k]), k, entry.event, entry.signer);
            match entry.event
            case Create(device, _) =>
              k == 0 && Verifies(c, device, ENTRY_CONTEXT, signed, entry.signature)
            case Recover(_, _) =>
              k > 0 && Verifies(c, recovery, ENTRY_CONTEXT, signed, entry.signature)
            case _ =>
              && TrustedAt(c, entries, recovery, entry.signer, k)
              && Verifies(c, StateAfter(c, entries[..k], recovery).value.devices[entry.signer].key,
                          ENTRY_CONTEXT, signed, entry.signature)
  {
    hide *;
    StepFacts(c, entries, recovery, k);
    AuthorisedBy(c, StateAfter(c, entries[..k], recovery).value, entries[k], recovery, HeadOf(entries[..k]));
    TrustedWhen(c, entries, recovery, entries[k].signer, k);
  }

  /** Whose signature an authorised entry carries. */
  lemma AuthorisedBy(c: Crypto, m: Members, entry: Entry, recovery: Bytes, previous: Digest)
    requires Authorised(c, m, entry, recovery, previous) == Pass
    ensures var signed := SignedBytes(previous, entry.sequence, entry.event, entry.signer);
            match entry.event
            case Create(device, _) => Verifies(c, device, ENTRY_CONTEXT, signed, entry.signature)
            case Recover(_, _) => Verifies(c, recovery, ENTRY_CONTEXT, signed, entry.signature)
            case _ => entry.signer in m.devices
                      && Verifies(c, m.devices[entry.signer].key, ENTRY_CONTEXT, signed, entry.signature)
  {
    hide Verifies, SignedBytes, LinkInput, DeviceId;
  }

  lemma TrustedWhen(c: Crypto, entries: seq<Entry>, recovery: Bytes, id: Digest, k: nat)
    requires k <= |entries|
    ensures TrustedAt(c, entries, recovery, id, k)
       <==> StateAfter(c, entries[..k], recovery).Ok? && id in StateAfter(c, entries[..k], recovery).value.devices
  {
  }

  /**
   A device that is not trusted after `j` entries signs an Enrol or Revoke at `k` only if entry `t`
   in between let it back in: an Enrol by a different device trusted at `t`, or a Recover naming it.
   */
  lemma {:induction false} OutUntilReadmitted(
      c: Crypto, entries: seq<Entry>, recovery: Bytes, id: Digest, j: nat, k: nat) returns (t: nat)
    requires Accepted(c, entries, recovery) && 0 < j <= k < |entries|
    requires !TrustedAt(c, entries, recovery, id, j)
    requires entries[k].signer == id && (entries[k].event.Enrol? || entries[k].event.Revoke?)
    ensures j <= t < k && Enrols(c.hash, entries[t].event, id)
    ensures entries[t].event.Recover?
         || (&& entries[t].event.Enrol? && entries[t].signer != id
             && TrustedAt(c, entries, recovery, entries[t].signer, t))
  {
    hide *;
    SignerTrusted(c, entries, recovery, k);
    t := j;
    while !TrustedAt(c, entries, recovery, id, t + 1)
      invariant j <= t < k
      invariant !TrustedAt(c, entries, recovery, id, t)
      decreases k - t
    {
      t := t + 1;
    }
    Readmission(c, entries, recovery, id, t);
  }

  lemma SignerTrusted(c: Crypto, entries: seq<Entry>, recovery: Bytes, k: nat)
    requires Accepted(c, entries, recovery) && k < |entries|
    requires entries[k].event.Enrol? || entries[k].event.Revoke?
    ensures TrustedAt(c, entries, recovery, entries[k].signer, k)
  {
    AuthorityAtPosition(c, entries, recovery, k);
  }

  lemma Readmission(c: Crypto, entries: seq<Entry>, recovery: Bytes, id: Digest, t: nat)
    requires Accepted(c, entries, recovery) && 0 < t < |entries|
    requires !TrustedAt(c, entries, recovery, id, t) && TrustedAt(c, entries, recovery, id, t + 1)
    ensures Enrols(c.hash, entries[t].event, id)
    ensures entries[t].event.Recover?
         || (&& entries[t].event.Enrol? && entries[t].signer != id
             && TrustedAt(c, entries, recovery, entries[t].signer, t))
  {
    StepFacts(c, entries, recovery, t);
    AuthorityAtPosition(c, entries, recovery, t);
    var before := StateAfter(c, entries[..t], recovery).value;
    EffectAdmits(c, before, entries[t], StateAfter(c, entries[..t + 1], recovery).value, id);
    hide StateAfter, Effect, Enrols, SignedBytes, Verifies, Replayed;
  }

  /** A device becomes trusted only through an entry that enrols it. */
  lemma EffectAdmits(c: Crypto, before: Members, entry: Entry, after: Members, id: Digest)
    requires Effect(c, before, entry) == Ok(after)
    requires id !in before.devices && id in after.devices
    ensures Enrols(c.hash, entry.event, id)
  {
  }

  // ---------------------------------------------------------------- heads commit to history

  /** Every input hashed into the links of a log. */
  ghost function LinkInputs(entries: seq<Entry>): set<Bytes> {
    set k | 0 <= k < |entries| :: EntryInput(HeadOf(entries[..k]), entries[k])
  }

  lemma LinkInputsPrefix(entries: seq<Entry>, k: nat)
    requires k <= |entries|
    ensures LinkInputs(entries[..k]) <= LinkInputs(entries)
  {
    hide EntryInput, HeadOf;
    forall x | x in LinkInputs(entries[..k])
      ensures x in LinkInputs(entries)
    {
      var i :| 0 <= i < k && x == EntryInput(HeadOf(entries[..k][..i]), entries[..k][i]);
      assert entries[..k][..i] == entries[..i];
      assert x == EntryInput(HeadOf(entries[..i]), entries[i]);
    }
  }

  /** The link of an accepted entry is the digest of its input. */
  lemma LinkIsDigest(c: Crypto, entries: seq<Entry>, recovery: Bytes, k: nat)
    requires Accepted(c, entries, recovery) && k < |entries|
    ensures entries[k].link == c.hash(EntryInput(HeadOf(entries[..k]), entries[k]))
    ensures EntryInput(HeadOf(entries[..k]), entries[k]) in LinkInputs(entries)
    ensures entries[k].sequence == k
  {
    StateBefore(c, entries, recovery, k);
  }

  /**
   The head link identifies the whole history: two accepted logs with one head, whatever their
   lengths and recovery keys, are the same entries, or a collision among their link inputs is at hand.
   */
  lemma {:induction false} HeadCommits(c: Crypto, a: seq<Entry>, recovery: Bytes, b: seq<Entry>, recovery': Bytes)
    requires Accepted(c, a, recovery) && Accepted(c, b, recovery')
    requires HeadOf(a) == HeadOf(b)
    ensures a == b || HasCollision(c.hash, LinkInputs(a) + LinkInputs(b))
    decreases |a|
  {
    hide *;
    AcceptedBounds(c, a, recovery);
    AcceptedBounds(c, b, recovery');
    SameHeadSameLast(c, a, recovery, b, recovery');
    var m, n := |a| - 1, |b| - 1;
    assert a == a[..m] + [a[m]] && b == b[..n] + [b[n]];
    if m > 0 && n > 0 && HeadOf(a[..m]) == HeadOf(b[..n]) {
      PrefixAccepted(c, a, recovery, m);
      PrefixAccepted(c, b, recovery', n);
      HeadCommits(c, a[..m], recovery, b[..n], recovery');
      LinkInputsPrefix(a, m);
      LinkInputsPrefix(b, n);
      UnionMonotonic(c.hash, LinkInputs(a[..m]), LinkInputs(a), LinkInputs(b[..n]), LinkInputs(b));
    }
  }

  lemma SameHeadSameLast(c: Crypto, a: seq<Entry>, recovery: Bytes, b: seq<Entry>, recovery': Bytes)
    requires Accepted(c, a, recovery) && Accepted(c, b, recovery')
    requires HeadOf(a) == HeadOf(b)
    ensures (&& |a| == |b| && a[|a| - 1] == b[|b| - 1]
             && HeadOf(a[..|a| - 1]) == HeadOf(b[..|b| - 1]))
         || HasCollision(c.hash, LinkInputs(a) + LinkInputs(b))
  {
    var m, n := |a| - 1, |b| - 1;
    LinkIsDigest(c, a, recovery, m);
    LinkIsDigest(c, b, recovery', n);
    var x, y := EntryInput(HeadOf(a[..m]), a[m]), EntryInput(HeadOf(b[..n]), b[n]);
    EqualDigests(c.hash, LinkInputs(a) + LinkInputs(b), x, y);
    if x == y {
      EntryInputInjective(HeadOf(a[..m]), a[m], HeadOf(b[..n]), b[n]);
    }
  }

  // ---------------------------------------------------------------- exactly what can be appended

  /** An entry that replay accepts was made by somebody entitled to it, or two device ids collide. */
  lemma AcceptedAppendAllowed(c: Crypto, entries: seq<Entry>, recovery: Bytes, author: Signer, event: Event)
    requires Accepted(c, entries, recovery) && |entries| < MAX_ENTRIES
    requires Accepted(c, entries + [Candidate(c, entries, author, event)], recovery)
    ensures var m := Replayed(c, entries, recovery).value;
            MayAppend(c, m, recovery, author.key, event)
              || HasCollision(c.hash, AuthorInputs(c, m, recovery, author.key))
  {
    hide StateAfter, SignedBytes, LinkInput, HasCollision, Verifies, Effect;
    var longer := entries + [Candidate(c, entries, author, event)];
    assert longer[..|entries|] == entries && longer[..|entries| + 1] == longer;
    StepFacts(c, longer, recovery, |entries|);
    var m := Replayed(c, entries, recovery).value;
    EffectAllows(c, m, longer[|entries|]);
    var id := DeviceId(c.hash, author.key);
    var inputs := AuthorInputs(c, m, recovery, author.key);
    if event.Recover? {
      SameIdSameKey(c.hash, inputs, author.key, recovery);
    } else {
      KeyOfId(c, entries, recovery, id);
      SameIdSameKey(c.hash, inputs, author.key, m.devices[id].key);
    }
  }

  lemma SameIdSameKey(h: Hasher, inputs: set<Bytes>, key: Bytes, key': Bytes)
    requires DeviceIdInput(key) in inputs && DeviceIdInput(key') in inputs && DeviceId(h, key) == DeviceId(h, key')
    ensures key == key' || HasCollision(h, inputs)
  {
    EqualDigests(h, inputs, DeviceIdInput(key), DeviceIdInput(key'));
    if DeviceIdInput(key) == DeviceIdInput(key') {
      SplitEqual(Ascii("HIDE/0.6 device id"), key, Ascii("HIDE/0.6 device id"), key');
    }
  }

  /** What an effect takes for granted. */
  lemma EffectAllows(c: Crypto, m: Members, entry: Entry)
    requires Effect(c, m, entry).Ok?
    ensures match entry.event
            case Revoke(target) => target in m.devices && |m.devices| > 1
            case Enrol(device, _) => ValidKey(c, device) && DeviceId(c.hash, device) !in m.devices
            case _ => ValidKey(c, entry.event.device)
  {
    hide DeviceId;
    if entry.event.Revoke? {
      assert |m.devices.Keys| == |m.devices| && entry.event.target in m.devices.Keys;
    }
  }

  /** The device id inputs that speak for an author: its own key's, the recovery key's and the one on record. */
  ghost function AuthorInputs(c: Crypto, m: Members, recovery: Bytes, key: Bytes): set<Bytes> {
    var id := DeviceId(c.hash, key);
    {DeviceIdInput(key), DeviceIdInput(recovery)} + if id in m.devices then {DeviceIdInput(m.devices[id].key)} else {}
  }

  lemma KeyOfId(c: Crypto, entries: seq<Entry>, recovery: Bytes, id: Digest)
    requires Accepted(c, entries, recovery) && id in Replayed(c, entries, recovery).value.devices
    ensures DeviceId(c.hash, Replayed(c, entries, recovery).value.devices[id].key) == id
  {
    hide StateAfter, StandingOf, DeviceId;
    MembershipExplained(c, entries, recovery, id);
  }

  /**
   Whoever signs the next entry, it is accepted if and only if the author may append it, unless the
   author's device id collides with another key's.
   */
  lemma AppendExactly(
      c: Crypto, entries: seq<Entry>, recovery: Bytes, author: Signer, signed: iset<Bytes>, event: Event)
    requires Accepted(c, entries, recovery) && |entries| < MAX_ENTRIES
    requires Attests(c, author, signed, ENTRY_CONTEXT, NextMessage(c, entries, author, event))
    ensures var m := Replayed(c, entries, recovery).value;
            || (Accepted(c, entries + [Candidate(c, entries, author, event)], recovery)
                <==> MayAppend(c, m, recovery, author.key, event))
            || HasCollision(c.hash, AuthorInputs(c, m, recovery, author.key))
  {
    AcceptedBounds(c, entries, recovery);
    var m := Replayed(c, entries, recovery).value;
    hide Accepted, Attests, MayAppend, HasCollision;
    if MayAppend(c, m, recovery, author.key, event) {
      HonestAppendAccepted(c, entries, recovery, author, signed, event);
    }
    if Accepted(c, entries + [Candidate(c, entries, author, event)], recovery) {
      AcceptedAppendAllowed(c, entries, recovery, author, event);
    }
  }
}
