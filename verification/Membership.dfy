/** The device set of an identity and how one entry changes it (crates/hide-identity/src/lib.rs). */
module Memberships {
  import opened Bytes
  import opened Hashing
  import opened IdentityEntries
  import opened Results
  import opened Signing

  datatype IdentityError =
    | Empty
    | Unauthorised(at: u64)
    | BadSignature(at: u64)
    | OutOfOrder(expected: nat, found: u64)
    | BrokenLink(at: u64)
    | BadRoot(what: string)
    | AlreadyEnrolled(at: u64)
    | NotEnrolled(at: u64)
    | WouldOrphan(at: u64)
    | Malformed
    | TooManyEntries(count: nat)
    | LabelTooLong
    | WrongIdentity
    | BadBinding
    | StaleBinding

  datatype Device = Device(id: Digest, key: Bytes, labelText: Bytes, enrolledAt: u64)

  /** A membership as a value: who is trusted, and who once was. */
  datatype Members = Members(devices: map<Digest, Device>, revoked: map<Digest, u64>)

  const NOBODY := Members(map[], map[])

  // ---------------------------------------------------------------- one entry, as a function

  function ParseKey(c: Crypto, device: Bytes, at: u64): Result<Bytes, IdentityError> {
    if |device| != VERIFYING_KEY_LENGTH then Err(Malformed)
    else if c.keyParses(device) then Ok(device)
    else Err(BadSignature(at))
  }

  /** The key that may have signed `entry`, given the membership before it. */
  function AuthorOf(c: Crypto, m: Members, entry: Entry, recovery: Bytes): Result<Bytes, IdentityError> {
    match entry.event
    case Create(device, _) =>
      if entry.sequence != 0 then Err(BadRoot("a later Create"))
      else
        var key :- ParseKey(c, device, entry.sequence);
        if DeviceId(c.hash, key) != entry.signer then Err(Unauthorised(entry.sequence)) else Ok(key)
    case Recover(_, _) =>
      if DeviceId(c.hash, recovery) != entry.signer then Err(Unauthorised(entry.sequence)) else Ok(recovery)
    case _ =>
      if entry.signer in m.devices then Ok(m.devices[entry.signer].key) else Err(Unauthorised(entry.sequence))
  }

  predicate LabelFits(event: Event) {
    event.Revoke? || |event.labelText| <= MAX_LABEL_BYTES
  }

  /** Whether an entry is well linked and signed by the key its event calls for. */
  function Authorised(c: Crypto, m: Members, entry: Entry, recovery: Bytes, previous: Digest): Outcome<IdentityError> {
    var signed := SignedBytes(previous, entry.sequence, entry.event, entry.signer);
    if !LabelFits(entry.event) then Fail(LabelTooLong)
    else if c.hash(LinkInput(signed, entry.signature)) != entry.link then Fail(BrokenLink(entry.sequence))
    else if |entry.signature| != SIGNATURE_LENGTH then Fail(BadSignature(entry.sequence))
    else
      match AuthorOf(c, m, entry, recovery)
      case Err(error) => Fail(error)
      case Ok(author) =>
        if Verifies(c, author, ENTRY_CONTEXT, signed, entry.signature) then Pass else Fail(BadSignature(entry.sequence))
  }

  /** The membership with one more device, trusted from `at` on. */
  function Trusting(m: Members, id: Digest, key: Bytes, labelText: Bytes, at: u64): Members {
    Members(m.devices[id := Device(id, key, labelText, at)], m.revoked - {id})
  }

  /** Everyone trusted so far, as revoked at `at`. */
  function RevokingAll(m: Members, at: u64): map<Digest, u64> {
    m.revoked + (map id | id in m.devices :: at)
  }

  function RevokingThese(revoked: map<Digest, u64>, ids: set<Digest>, at: u64): map<Digest, u64> {
    revoked + (map id | id in ids :: at)
  }

  lemma RevokingNone(m: Members, at: u64)
    ensures RevokingThese(m.revoked, m.devices.Keys - m.devices.Keys, at) == m.revoked
    ensures RevokingThese(m.revoked, m.devices.Keys, at) == RevokingAll(m, at)
  {
  }

  lemma RevokedMore(revoked: map<Digest, u64>, ids: set<Digest>, id: Digest, at: u64)
    ensures RevokingThese(revoked, ids, at)[id := at] == RevokingThese(revoked, ids + {id}, at)
  {
  }

  /** What an authorised entry does. */
  function Effect(c: Crypto, m: Members, entry: Entry): Result<Members, IdentityError> {
    var at := entry.sequence;
    match entry.event
    case Create(device, labelText) =>
      var key :- ParseKey(c, device, at);
      var id := DeviceId(c.hash, key);
      Ok(m.(devices := m.devices[id := Device(id, key, labelText, at)]))
    case Enrol(device, labelText) =>
      var key :- ParseKey(c, device, at);
      var id := DeviceId(c.hash, key);
      if id in m.devices then Err(AlreadyEnrolled(at)) else Ok(Trusting(m, id, key, labelText, at))
    case Revoke(target) =>
      if target !in m.devices then Err(NotEnrolled(at))
      else if |m.devices| == 1 then Err(WouldOrphan(at))
      else Ok(Members(m.devices - {target}, m.revoked[target := at]))
    case Recover(device, labelText) =>
      var key :- ParseKey(c, device, at);
      Ok(Trusting(Members(map[], RevokingAll(m, at)), DeviceId(c.hash, key), key, labelText, at))
  }

  function Applied(c: Crypto, m: Members, entry: Entry, recovery: Bytes, previous: Digest)
    : Result<Members, IdentityError>
  {
    match Authorised(c, m, entry, recovery, previous)
    case Fail(error) => Err(error)
    case Pass => Effect(c, m, entry)
  }

  // ---------------------------------------------------------------- one entry, in place

  /** The two maps a replay updates in place. */
  class Membership {
    var devices: map<Digest, Device>
    var revoked: map<Digest, u64>

    constructor ()
      ensures State() == NOBODY
    {
      devices, revoked := map[], map[];
    }

    function State(): Members
      reads this
    {
      Members(devices, revoked)
    }

    /** The next entry's effect on both maps, if its signer may sign it; otherwise none. */
    method Apply(c: Crypto, entry: Entry, recovery: Bytes, previous: Digest) returns (outcome: Outcome<IdentityError>)
      modifies this
      ensures match Applied(c, old(State()), entry, recovery, previous)
              case Ok(after) => outcome == Pass && State() == after
              case Err(error) => outcome == Fail(error) && State() == old(State())
    {
      if !entry.event.Revoke? && |entry.event.labelText| > MAX_LABEL_BYTES {
        return Fail(LabelTooLong);
      }
      var signed := SignedBytes(previous, entry.sequence, entry.event, entry.signer);
      if c.hash(LinkInput(signed, entry.signature)) != entry.link {
        return Fail(BrokenLink(entry.sequence));
      }
      if |entry.signature| != SIGNATURE_LENGTH {
        return Fail(BadSignature(entry.sequence));
      }
      var author := AuthorOf(c, State(), entry, recovery);
      if author.Err? {
        return Fail(author.error);
      }
      if !Verifies(c, author.value, ENTRY_CONTEXT, signed, entry.signature) {
        return Fail(BadSignature(entry.sequence));
      }
      match entry.event {
        case Create(device, labelText) =>
          var key := ParseKey(c, device, entry.sequence);
          assert key.Ok?;  // parsed once already, to find the author
          var id := DeviceId(c.hash, key.value);
          devices := devices[id := Device(id, key.value, labelText, entry.sequence)];
        case Enrol(device, labelText) =>
          var key := ParseKey(c, device, entry.sequence);
          if key.Err? {
            return Fail(key.error);
          }
          var id := DeviceId(c.hash, key.value);
          if id in devices {
            return Fail(AlreadyEnrolled(entry.sequence));
          }
          revoked := revoked - {id};
          devices := devices[id := Device(id, key.value, labelText, entry.sequence)];
        case Revoke(target) =>
          if target !in devices {
            return Fail(NotEnrolled(entry.sequence));
          }
          if |devices| == 1 {
            return Fail(WouldOrphan(entry.sequence));
          }
          devices := devices - {target};
          revoked := revoked[target := entry.sequence];
        case Recover(device, labelText) =>
          var key := ParseKey(c, device, entry.sequence);
          if key.Err? {
            return Fail(key.error);
          }
          var id := DeviceId(c.hash, key.value);
          RevokeEveryone(entry.sequence);
          devices := map[];
          revoked := revoked - {id};
          devices := devices[id := Device(id, key.value, labelText, entry.sequence)];
      }
      return Pass;
    }

    /** Records every trusted device as revoked at `at`, one after the other. */
    method RevokeEveryone(at: u64)
      modifies this`revoked
      ensures revoked == RevokingAll(old(State()), at)
    {
      hide RevokingThese;
      ghost var before, everyone := State(), devices.Keys;
      RevokingNone(before, at);
      var remaining := devices.Keys;
      while remaining != {}
        invariant remaining <= everyone
        invariant revoked == RevokingThese(before.revoked, everyone - remaining, at)
        decreases |remaining|
      {
        var id :| id in remaining;
        RevokedMore(before.revoked, everyone - remaining, id, at);
        assert everyone - remaining + {id} == everyone - (remaining - {id});
        revoked := revoked[id := at];
        remaining := remaining - {id};
      }
      assert everyone - remaining == everyone;
    }
  }
}
