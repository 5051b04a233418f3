/** Exactly which identity logs are accepted, from their entries alone (crates/hide-identity/src/lib.rs). */
module IdentityRules {
  import opened Bytes
  import opened Hashing
  import opened IdentityEntries
  import opened IdentityHistory
  import opened IdentityLogs
  import opened Memberships
  import opened Results
  import opened Signing

  // ---------------------------------------------------------------- the bytes

  function IdOf(h: Hasher, key: Bytes): Digest {
    h(Ascii("HIDE/0.6 device id") + key)
  }

  function EventForm(event: Event, signer: Digest): Bytes {
    match event
    case Create(device, name) => [1] + signer + U64(|device|) + device + U64(|name|) + name
    case Enrol(device, name) => [2] + signer + U64(|device|) + device + U64(|name|) + name
    case Revoke(target) => [3] + signer + U64(32) + target
    case Recover(device, name) => [4] + signer + U64(|device|) + device + U64(|name|) + name
  }

  /** What the entry at `k` signs: the link before it, its place, and the event with its signer. */
  function SignedForm(entries: seq<Entry>, k: nat): Bytes
    requires k < |entries| && k < 0x1_0000_0000_0000_0000
  {
    (if k == 0 then seq(32, _ => 0) else entries[k - 1].link) + U64(k) + EventForm(entries[k].event, entries[k].signer)
  }

  function LinkForm(signed: Bytes, signature: Blob): Bytes {
    if |signed| >= 0x1_0000_0000_0000_0000 then []
    else Ascii("HIDE/0.6 identity link") + U64(|signed|) + signed + U64(|signature|) + signature
  }

  predicate SignedWith(c: Crypto, key: Bytes, signed: Bytes, signature: Bytes) {
    c.checks(key, U64(23) + Ascii("HIDE/0.6 identity entry") + signed, signature)
  }

  // ---------------------------------------------------------------- who is trusted where

  predicate BringsIn(h: Hasher, event: Event, id: Digest) {
    (event.Create? || event.Enrol? || event.Recover?) && IdOf(h, event.device) == id
  }

  /** Entry `j` brought the device in, and none of those after it and before `k` ended or renewed that. */
  predicate Stands(h: Hasher, entries: seq<Entry>, k: nat, id: Digest, j: nat)
    requires k <= |entries|
  {
    && j < k && BringsIn(h, entries[j].event, id)
    && forall i :: j < i < k ==>
         && !BringsIn(h, entries[i].event, id)
         && !entries[i].event.Recover?
         && !(entries[i].event.Revoke? && entries[i].event.target == id)
  }

  predicate IsTrusted(h: Hasher, entries: seq<Entry>, k: nat, id: Digest)
    requires k <= |entries|
  {
    exists j :: 0 <= j < k && Stands(h, entries, k, id, j)
  }

  // ---------------------------------------------------------------- the rule for one entry

  /** The reason a device key is refused, if it is. */
  function KeyRule(c: Crypto, device: Bytes, k: u64): Outcome<IdentityError> {
    if |device| != 1984 then Fail(Malformed)
    else if !c.keyParses(device) then Fail(BadSignature(k))
    else Pass
  }

  function And(a: Outcome<IdentityError>, b: Outcome<IdentityError>): Outcome<IdentityError> {
    if a.Pass? then b else a
  }

  function Check(holds: bool, otherwise: IdentityError): Outcome<IdentityError> {
    if holds then Pass else Fail(otherwise)
  }

  /** Who may sign an entry, and that it is signed: the founder, the recovery key, or a device trusted there. */
  predicate SignerTrustedAndSigned(c: Crypto, entries: seq<Entry>, k: nat, id: Digest, signed: Bytes, signature: Bytes)
    requires k <= |entries|
  {
    exists j :: 0 <= j < k && Stands(c.hash, entries, k, id, j)
      && !entries[j].event.Revoke? && SignedWith(c, entries[j].event.device, signed, signature)
  }

  function AuthorRule(c: Crypto, entries: seq<Entry>, k: nat, recovery: Bytes): Outcome<IdentityError>
    requires k < |entries| && k < 0x1_0000_0000_0000_0000
  {
    var e, signed := entries[k], SignedForm(entries, k);
    match e.event
    case Create(device, _) =>
      And(Check(k == 0, BadRoot("a later Create")),
        And(KeyRule(c, device, k),
          And(Check(IdOf(c.hash, device) == e.signer, Unauthorised(k)),
            Check(SignedWith(c, device, signed, e.signature), BadSignature(k)))))
    case Recover(_, _) =>
      And(Check(IdOf(c.hash, recovery) == e.signer, Unauthorised(k)),
        Check(SignedWith(c, recovery, signed, e.signature), BadSignature(k)))
    case _ =>
      And(Check(IsTrusted(c.hash, entries, k, e.signer), Unauthorised(k)),
        Check(SignerTrustedAndSigned(c, entries, k, e.signer, signed, e.signature), BadSignature(k)))
  }

  /** What the event itself must meet: a new device is not trusted yet, a revoked one is, and is not the last. */
  ghost function EventRule(c: Crypto, entries: seq<Entry>, k: nat): Outcome<IdentityError>
    requires k < |entries| && k < 0x1_0000_0000_0000_0000
  {
    match entries[k].event
    case Create(_, _) => Pass
    case Recover(device, _) => KeyRule(c, device, k)
    case Enrol(device, _) =>
      And(KeyRule(c, device, k), Check(!IsTrusted(c.hash, entries, k, IdOf(c.hash, device)), AlreadyEnrolled(k)))
    case Revoke(target) =>
      And(Check(IsTrusted(c.hash, entries, k, target), NotEnrolled(k)),
        Check(exists other :: other != target && IsTrusted(c.hash, entries, k, other), WouldOrphan(k)))
  }

  /** The verdict on the entry at `k` where it stands; of several reasons the first counts. */
  ghost function EntryRule(c: Crypto, entries: seq<Entry>, k: nat, recovery: Bytes): Outcome<IdentityError>
    requires k < |entries| && k < 0x1_0000_0000_0000_0000
  {
    var e := entries[k];
    And(Check(e.sequence == k, OutOfOrder(k, e.sequence)),
      And(Check(e.event.Revoke? || |e.event.labelText| <= 256, LabelTooLong),
        And(Check(e.link == c.hash(LinkForm(SignedForm(entries, k), e.signature)), BrokenLink(k)),
          And(Check(|e.signature| == 3373, BadSignature(k)),
            And(AuthorRule(c, entries, k, recovery), EventRule(c, entries, k))))))
  }

  // ---------------------------------------------------------------- the model's own terms

  lemma IdIsForm(h: Hasher, key: Bytes)
    ensures DeviceId(h, key) == IdOf(h, key)
  {
  }

  lemma EventIsForm(event: Event, signer: Digest)
    ensures [event.Tag()] + signer + EventFields(event) == EventForm(event, signer)
  {
    hide U64;
  }

  lemma SignedIsForm(entries: seq<Entry>, k: nat)
    requires k < |entries| && k < 0x1_0000_0000_0000_0000
    ensures SignedBytes(HeadOf(entries[..k]), k, entries[k].event, entries[k].signer) == SignedForm(entries, k)
  {
    var e := entries[k];
    EventIsForm(e.event, e.signer);
    assert k > 0 ==> HeadOf(entries[..k]) == entries[k - 1].link;
    assert k == 0 ==> HeadOf(entries[..k]) == Zeros(32) == seq(32, _ => 0);
    hide U64, EventFields, EventForm, HeadOf;
    var previous := HeadOf(entries[..k]);
    assert previous + U64(k) + [e.event.Tag()] + e.signer + EventFields(e.event)
        == previous + U64(k) + ([e.event.Tag()] + e.signer + EventFields(e.event));
  }

  lemma LinkIsForm(signed: Bytes, signature: Blob)
    requires |signed| < 0x1_0000_0000_0000_0000
    ensures LinkInput(signed, signature) == LinkForm(signed, signature)
  {
    hide U64, Ascii;
  }

  lemma SignedWithIsVerifies(c: Crypto, key: Bytes, signed: Bytes, signature: Bytes)
    requires |signature| == 3373
    ensures Verifies(c, key, ENTRY_CONTEXT, signed, signature) <==> SignedWith(c, key, signed, signature)
  {
    assert Bind(ENTRY_CONTEXT, signed) == U64(23) + Ascii("HIDE/0.6 identity entry") + signed;
  }

  lemma {:induction false} StandsExactly(h: Hasher, entries: seq<Entry>, k: nat, id: Digest, j: nat)
    requires k <= |entries|
    ensures StandingOf(h, entries[..k], id) == Trusted(j) <==> Stands(h, entries, k, id, j)
    decreases k
  {
    hide IdOf, DeviceId;
    if k > 0 {
      StandsExactly(h, entries, k - 1, id, j);
      assert entries[..k][..k - 1] == entries[..k - 1];
      if !entries[k - 1].event.Revoke? {
        IdIsForm(h, entries[k - 1].event.device);
      }
      assert Enrols(h, entries[k - 1].event, id) <==> BringsIn(h, entries[k - 1].event, id);
      hide Enrols, BringsIn;
    }
  }

  /** Up to `k`, the replay has gone through and left this membership. */
  ghost predicate Reached(c: Crypto, entries: seq<Entry>, k: nat, recovery: Bytes, m: Members)
    requires k <= |entries|
  {
    && k <= MAX_ENTRIES && StateAfter(c, entries[..k], recovery) == Ok(m)
    && (k > 0 ==> entries[0].event.Create?)
  }

  /** The devices of a membership reached by replay are those the history trusts, each with its own key. */
  lemma DevicesExactly(c: Crypto, entries: seq<Entry>, k: nat, recovery: Bytes, m: Members, id: Digest)
    requires k <= |entries| && Reached(c, entries, k, recovery, m)
    ensures id in m.devices <==> IsTrusted(c.hash, entries, k, id)
    ensures forall j :: 0 <= j < k && Stands(c.hash, entries, k, id, j) ==>
              && id in m.devices && !entries[j].event.Revoke?
              && m.devices[id].key == entries[j].event.device && m.devices[id].enrolledAt == j
              && m.devices[id].labelText == entries[j].event.labelText
  {
    hide StateAfter, Stands, DeviceId;
    MembershipExplained(c, entries[..k], recovery, id);
    forall j | 0 <= j < k ensures StandingOf(c.hash, entries[..k], id) == Trusted(j) <==>
      Stands(c.hash, entries, k, id, j)
    {
      StandsExactly(c.hash, entries, k, id, j);
    }
    hide StandingOf;
  }

  function OutcomeOf<T>(result: Result<T, IdentityError>): Outcome<IdentityError> {
    if result.Ok? then Pass else Fail(result.error)
  }

  lemma KeyExactly(c: Crypto, device: Bytes, k: u64)
    ensures OutcomeOf(ParseKey(c, device, k)) == KeyRule(c, device, k)
    ensures ParseKey(c, device, k).Ok? ==> ParseKey(c, device, k) == Ok(device)
  {
  }

  lemma AuthorExactly(c: Crypto, entries: seq<Entry>, k: nat, recovery: Bytes, m: Members)
    requires k < |entries| && Reached(c, entries, k, recovery, m)
    requires entries[k].sequence == k && |entries[k].signature| == 3373
    ensures AuthorRule(c, entries, k, recovery)
         == SignedBy(c, AuthorOf(c, m, entries[k], recovery), SignedForm(entries, k), entries[k].signature, k)
  {
    hide StateAfter, Verifies, SignedForm, SignedWith, Stands, Reached, IsTrusted, DeviceId, IdOf, ParseKey, KeyRule,
      SignerTrustedAndSigned;
    var e, signed := entries[k], SignedForm(entries, k);
    match e.event {
      case Create(device, _) =>
        FounderExactly(c, entries, k, recovery, m);
      case Recover(_, _) =>
        IdIsForm(c.hash, recovery);
        SignedWithIsVerifies(c, recovery, signed, e.signature);
      case _ =>
        TrustedAuthor(c, entries, k, recovery, m, e.signer, signed, e.signature);
    }
  }

  lemma FounderExactly(c: Crypto, entries: seq<Entry>, k: nat, recovery: Bytes, m: Members)
    requires k < |entries| && k < 0x1_0000_0000_0000_0000
    requires entries[k].sequence == k && |entries[k].signature| == 3373 && entries[k].event.Create?
    ensures AuthorRule(c, entries, k, recovery)
         == SignedBy(c, AuthorOf(c, m, entries[k], recovery), SignedForm(entries, k), entries[k].signature, k)
  {
    hide Verifies, SignedForm, SignedWith, DeviceId, IdOf, ParseKey, KeyRule;
    var device := entries[k].event.device;
    KeyExactly(c, device, k);
    IdIsForm(c.hash, device);
    SignedWithIsVerifies(c, device, SignedForm(entries, k), entries[k].signature);
  }

  function SignedBy(c: Crypto, author: Result<Bytes, IdentityError>, signed: Bytes, signature: Bytes, k: u64)
    : Outcome<IdentityError>
  {
    if author.Err? then Fail(author.error)
    else Check(Verifies(c, author.value, ENTRY_CONTEXT, signed, signature), BadSignature(k))
  }

  /** The key on record for a trusted device is that of the one entry it stands by. */
  lemma TrustedAuthor(c: Crypto, entries: seq<Entry>, k: nat, recovery: Bytes, m: Members, id: Digest, signed: Bytes,
                      signature: Bytes)
    requires k <= |entries| && Reached(c, entries, k, recovery, m) && |signature| == 3373
    ensures id in m.devices <==> IsTrusted(c.hash, entries, k, id)
    ensures id in m.devices ==>
              (Verifies(c, m.devices[id].key, ENTRY_CONTEXT, signed, signature)
               <==> SignerTrustedAndSigned(c, entries, k, id, signed, signature))
  {
    DevicesExactly(c, entries, k, recovery, m, id);
    hide StateAfter, Verifies, SignedWith, Stands, Reached;
    if id in m.devices {
      SignedWithIsVerifies(c, m.devices[id].key, signed, signature);
      var j :| 0 <= j < k && Stands(c.hash, entries, k, id, j);
    }
  }

  lemma EventExactly(c: Crypto, entries: seq<Entry>, k: nat, recovery: Bytes, m: Members)
    requires k < |entries| && Reached(c, entries, k, recovery, m) && entries[k].sequence == k
    requires entries[k].event.Create? ==> KeyRule(c, entries[k].event.device, k).Pass?
    ensures OutcomeOf(Effect(c, m, entries[k])) == EventRule(c, entries, k)
  {
    hide StateAfter, Stands, Reached, IsTrusted, DeviceId, IdOf, ParseKey, KeyRule;
    match entries[k].event {
      case Create(device, _) =>
        KeyExactly(c, device, k);
      case Recover(device, _) =>
        KeyExactly(c, device, k);
      case Enrol(device, _) =>
        KeyExactly(c, device, k);
        IdIsForm(c.hash, device);
        DevicesExactly(c, entries, k, recovery, m, IdOf(c.hash, device));
      case Revoke(target) =>
        DevicesExactly(c, entries, k, recovery, m, target);
        forall other ensures other in m.devices <==> IsTrusted(c.hash, entries, k, other) {
          DevicesExactly(c, entries, k, recovery, m, other);
        }
        if target in m.devices {
          OnlyOne(m.devices, target);
        }
    }
  }

  lemma OnlyOne<K, V>(m: map<K, V>, k: K)
    requires k in m
    ensures |m| == 1 <==> forall other :: other != k ==> other !in m
  {
    assert k in m.Keys;
    var others := m.Keys - {k};
    assert |others| == |m| - 1;
    if |m| == 1 {
      assert others == {};
      forall other | other != k ensures other !in m {
        assert other !in others;
      }
    } else {
      var other :| other in others;
    }
  }

  /** What an entry must meet before its effect is looked at. */
  function SealRule(c: Crypto, entries: seq<Entry>, k: nat, recovery: Bytes): Outcome<IdentityError>
    requires k < |entries| && k < 0x1_0000_0000_0000_0000
  {
    var e := entries[k];
    And(Check(e.event.Revoke? || |e.event.labelText| <= 256, LabelTooLong),
      And(Check(e.link == c.hash(LinkForm(SignedForm(entries, k), e.signature)), BrokenLink(k)),
        And(Check(|e.signature| == 3373, BadSignature(k)), AuthorRule(c, entries, k, recovery))))
  }

  lemma AuthorisedInSteps(c: Crypto, m: Members, entry: Entry, recovery: Bytes, previous: Digest)
    ensures var signed, at := SignedBytes(previous, entry.sequence, entry.event, entry.signer), entry.sequence;
            var steps := And(Check(LabelFits(entry.event), LabelTooLong),
                           And(Check(entry.link == c.hash(LinkInput(signed, entry.signature)), BrokenLink(at)),
                             And(Check(|entry.signature| == 3373, BadSignature(at)),
                               SignedBy(c, AuthorOf(c, m, entry, recovery), signed, entry.signature, at))));
            Authorised(c, m, entry, recovery, previous) == steps
  {
    hide Verifies, SignedBytes, LinkInput, AuthorOf, LabelFits;
  }

  lemma SealExactly(c: Crypto, entries: seq<Entry>, k: nat, recovery: Bytes, m: Members)
    requires k < |entries| && Reached(c, entries, k, recovery, m) && entries[k].sequence == k
    ensures Authorised(c, m, entries[k], recovery, HeadOf(entries[..k])) == SealRule(c, entries, k, recovery)
  {
    hide StateAfter, SignedForm, SignedBytes, LinkForm, LinkInput, Reached, AuthorOf, AuthorRule, SignedBy, Authorised;
    var e := entries[k];
    AuthorisedInSteps(c, m, e, recovery, HeadOf(entries[..k]));
    SignedIsForm(entries, k);
    LinkIsForm(SignedForm(entries, k), e.signature);
    if |e.signature| == 3373 {
      AuthorExactly(c, entries, k, recovery, m);
    }
  }

  /** What one step of the replay says is what the rule for the entry says. */
  lemma EntryExactly(c: Crypto, entries: seq<Entry>, k: nat, recovery: Bytes, m: Members)
    requires k < |entries| && Reached(c, entries, k, recovery, m)
    ensures EntryRule(c, entries, k, recovery)
         == if entries[k].sequence != k then Fail(OutOfOrder(k, entries[k].sequence))
            else OutcomeOf(Applied(c, m, entries[k], recovery, HeadOf(entries[..k])))
  {
    hide StateAfter, SignedForm, LinkForm, Reached, Authorised, Effect, EventRule, AuthorRule;
    if entries[k].sequence == k {
      SealExactly(c, entries, k, recovery, m);
      if SealRule(c, entries, k, recovery).Pass? {
        FounderHasKey(c, entries, k, recovery);
        EventExactly(c, entries, k, recovery, m);
      }
    }
  }

  lemma FounderHasKey(c: Crypto, entries: seq<Entry>, k: nat, recovery: Bytes)
    requires k < |entries| && k < 0x1_0000_0000_0000_0000 && AuthorRule(c, entries, k, recovery).Pass?
    ensures entries[k].event.Create? ==> KeyRule(c, entries[k].event.device, k).Pass?
  {
    hide SignedForm, IdOf, KeyRule, SignedWith;
  }

  // ---------------------------------------------------------------- the whole log

  ghost predicate AllPass(c: Crypto, entries: seq<Entry>, k: nat, recovery: Bytes)
    requires k <= |entries| && k < 0x1_0000_0000_0000_0000
  {
    forall i :: 0 <= i < k ==> EntryRule(c, entries, i, recovery) == Pass
  }

  /** The replay gets through the first `k` entries if and only if each of them meets its rule. */
  lemma {:induction false} RunExactly(c: Crypto, entries: seq<Entry>, k: nat, recovery: Bytes)
    requires k <= |entries| <= MAX_ENTRIES && entries != [] && entries[0].event.Create?
    ensures StateAfter(c, entries[..k], recovery).Ok? <==> AllPass(c, entries, k, recovery)
    ensures StateAfter(c, entries[..k], recovery).Ok? && k < |entries| ==>
              OutcomeOf(StateAfter(c, entries[..k + 1], recovery)) == EntryRule(c, entries, k, recovery)
    decreases k
  {
    hide EntryRule, Applied;
    if k > 0 {
      RunExactly(c, entries, k - 1, recovery);
      assert entries[..k][..k - 1] == entries[..k - 1];
    }
    if StateAfter(c, entries[..k], recovery).Ok? && k < |entries| {
      var m := StateAfter(c, entries[..k], recovery).value;
      EntryExactly(c, entries, k, recovery, m);
      assert entries[..k + 1][..k] == entries[..k];
    }
  }

  /**
   A log is accepted if and only if it has between one and a hundred thousand entries, begins with a
   Create, and each entry meets the rule for its place.
   */
  lemma AcceptedExactly(c: Crypto, entries: seq<Entry>, recovery: Bytes)
    ensures Accepted(c, entries, recovery)
       <==> && 1 <= |entries| <= 100_000 && entries[0].event.Create?
            && forall k :: 0 <= k < |entries| ==> EntryRule(c, entries, k, recovery) == Pass
  {
    hide StateAfter, EntryRule;
    if 1 <= |entries| <= MAX_ENTRIES && entries[0].event.Create? {
      RunExactly(c, entries, |entries|, recovery);
      assert entries[..|entries|] == entries;
    }
  }

  /** And a log that is refused is refused for the first entry that does not, for the reason its rule gives. */
  lemma RefusedExactly(c: Crypto, entries: seq<Entry>, recovery: Bytes, k: nat)
    requires k < |entries| <= 100_000 && entries[0].event.Create?
    requires AllPass(c, entries, k, recovery) && EntryRule(c, entries, k, recovery).Fail?
    ensures Replayed(c, entries, recovery) == Err(EntryRule(c, entries, k, recovery).error)
  {
    hide StateAfter, EntryRule;
    RunExactly(c, entries, k, recovery);
    ErrorsPersist(c, entries, recovery, k + 1);
  }

  /** The devices an accepted log leaves, and what is on record for each. */
  lemma TrustedExactly(c: Crypto, entries: seq<Entry>, recovery: Bytes, id: Digest)
    requires Accepted(c, entries, recovery)
    ensures var m := Replayed(c, entries, recovery).value;
            && (id in m.devices <==> IsTrusted(c.hash, entries, |entries|, id))
            && forall j :: 0 <= j < |entries| && Stands(c.hash, entries, |entries|, id, j) ==>
                 && id in m.devices && !entries[j].event.Revoke?
                 && m.devices[id].key == entries[j].event.device && m.devices[id].enrolledAt == j
                 && m.devices[id].labelText == entries[j].event.labelText
  {
    assert entries[..|entries|] == entries;
    var m := Replayed(c, entries, recovery).value;
    assert Reached(c, entries, |entries|, recovery, m);
    hide StateAfter, Stands, Reached, IsTrusted;
    DevicesExactly(c, entries, |entries|, recovery, m, id);
  }

  /** Every entry names its author: the device id it carries is that of the key that signed it. */
  lemma SignerNamed(c: Crypto, entries: seq<Entry>, recovery: Bytes, k: nat) returns (key: Bytes)
    requires Accepted(c, entries, recovery) && k < |entries|
    ensures entries[k].signer == IdOf(c.hash, key)
    ensures |entries[k].signature| == 3373 && SignedWith(c, key, SignedForm(entries, k), entries[k].signature)
    ensures entries[k].event.Create? ==> key == entries[k].event.device
    ensures entries[k].event.Recover? ==> key == recovery
  {
    AcceptedExactly(c, entries, recovery);
    hide Accepted, SignedWith, SignedForm, IdOf, LinkForm, EventRule, KeyRule;
    assert EntryRule(c, entries, k, recovery) == Pass;
    match entries[k].event {
      case Create(device, _) => key := device;
      case Recover(_, _) => key := recovery;
      case _ =>
        var j :| 0 <= j < k && Stands(c.hash, entries, k, entries[k].signer, j) && !entries[j].event.Revoke?
              && SignedWith(c, entries[j].event.device, SignedForm(entries, k), entries[k].signature);
        key := entries[j].event.device;
    }
  }
}
