/** Signed statements tied to an identity log (crates/hide-identity/src/bindings.rs). */
module Bindings {
  import opened Bytes
  import opened Hashing
  import opened IdentityEntries
  import opened IdentityHistory
  import opened IdentityLogs
  import opened Memberships
  import opened Results
  import opened Signing
  import EpochChains

  const RECOVERY_BINDING_CONTEXT: Blob := Ascii("HIDE/1.0 recovery binding")
  const EPOCH_BINDING_CONTEXT: Blob := Ascii("HIDE/1.0 epoch binding")

  // ---------------------------------------------------------------- the recovery key of a root

  datatype RecoveryBinding = RecoveryBinding(root: Digest, recoveryKey: Bytes, signature: Bytes)

  function RecoveryMessage(root: Digest, recoveryKey: Bytes): Bytes {
    root + recoveryKey
  }

  function FounderKey(c: Crypto, entries: seq<Entry>): Result<Bytes, IdentityError> {
    if entries == [] then Err(Empty)
    else if !entries[0].event.Create? then Err(BadRoot("another event"))
    else if ValidKey(c, entries[0].event.device) then Ok(entries[0].event.device)
    else Err(BadBinding)
  }

  function RootOfLog(entries: seq<Entry>): Digest {
    if entries == [] then NO_LINK else entries[0].link
  }

  function CreateRecovery(c: Crypto, entries: seq<Entry>, recovery: Bytes, founder: Signer)
    : Result<RecoveryBinding, IdentityError>
  {
    match FounderKey(c, entries)
    case Err(error) => Err(error)
    case Ok(expected) =>
      if founder.key != expected then Err(Unauthorised(0))
      else
        var message := RecoveryMessage(RootOfLog(entries), recovery);
        Ok(RecoveryBinding(RootOfLog(entries), recovery, Sign(founder, RECOVERY_BINDING_CONTEXT, message)))
  }

  /** A binding that fails costs no replay; one that passes names the recovery key to replay with. */
  function RecoveryVerdict(c: Crypto, binding: RecoveryBinding, entries: seq<Entry>, pinned: Digest)
    : Result<Members, IdentityError>
  {
    if binding.root != pinned then Err(WrongIdentity)
    else
      match FounderKey(c, entries)
      case Err(error) => Err(error)
      case Ok(founder) =>
        if entries[0].link != binding.root then Err(WrongIdentity)
        else if !Verifies(c, founder, RECOVERY_BINDING_CONTEXT,
                          RecoveryMessage(binding.root, binding.recoveryKey), binding.signature) then Err(BadBinding)
        else Replayed(c, entries, binding.recoveryKey)
  }

  /** What is called by whoever has pinned a root. */
  method VerifyPinned(c: Crypto, binding: RecoveryBinding, entries: seq<Entry>, pinned: Digest)
    returns (result: Result<IdentityLog, IdentityError>)
    ensures match RecoveryVerdict(c, binding, entries, pinned)
            case Err(error) => result == Err(error)
            case Ok(_) =>
              && result.Ok? && fresh(result.value) && result.value.Valid()
              && result.value.crypto == c && result.value.entries == entries
              && result.value.recovery == binding.recoveryKey
  {
    if binding.root != pinned {
      return Err(WrongIdentity);
    }
    var founder := FounderKey(c, entries);
    if founder.Err? {
      return Err(founder.error);
    }
    if entries[0].link != binding.root {
      return Err(WrongIdentity);
    }
    var message := RecoveryMessage(binding.root, binding.recoveryKey);
    if !Verifies(c, founder.value, RECOVERY_BINDING_CONTEXT, message, binding.signature) {
      return Err(BadBinding);
    }
    result := IdentityLog.FromEntries(c, entries, binding.recoveryKey);
  }

  /** The binding a genuine founder makes for its own log is accepted by whoever pins its root. */
  lemma CreatedRecoveryVerifies(
      c: Crypto, entries: seq<Entry>, recovery: Bytes, founder: Signer, signed: iset<Bytes>)
    requires Accepted(c, entries, recovery) && entries[0].event.device == founder.key
    requires Attests(c, founder, signed, RECOVERY_BINDING_CONTEXT, RecoveryMessage(RootOfLog(entries), recovery))
    ensures var created := CreateRecovery(c, entries, recovery, founder);
            && created.Ok?
            && RecoveryVerdict(c, created.value, entries, entries[0].link) == Replayed(c, entries, recovery)
  {
    AcceptedBounds(c, entries, recovery);
    StepFacts(c, entries, recovery, 0);
    hide Replayed, Verifies, Attests;
    AttestedVerifies(c, founder, signed, RECOVERY_BINDING_CONTEXT, RecoveryMessage(RootOfLog(entries), recovery));
  }

  /** The holder of `key` signed at most one recovery key for `root`. */
  ghost predicate SignedOneRecovery(root: Digest, signed: iset<Bytes>) {
    forall x: Bytes, y: Bytes ::
      (&& Bind(RECOVERY_BINDING_CONTEXT, RecoveryMessage(root, x)) in signed
       && Bind(RECOVERY_BINDING_CONTEXT, RecoveryMessage(root, y)) in signed)
      ==> x == y
  }

  lemma SameRootSameFounder(c: Crypto, a: seq<Entry>, recovery: Bytes, b: seq<Entry>, recovery': Bytes)
    requires Accepted(c, a, recovery) && Accepted(c, b, recovery') && a[0].link == b[0].link
    ensures a[0] == b[0]
         || HasCollision(c.hash, {EntryInput(NO_LINK, a[0]), EntryInput(NO_LINK, b[0])})
  {
    LinkIsDigest(c, a, recovery, 0);
    LinkIsDigest(c, b, recovery', 0);
    var x, y := EntryInput(NO_LINK, a[0]), EntryInput(NO_LINK, b[0]);
    EqualDigests(c.hash, {x, y}, x, y);
    if x == y {
      EntryInputInjective(NO_LINK, a[0], NO_LINK, b[0]);
    }
  }

  /**
   Pinning a root pins one recovery key: whatever logs and bindings two relying parties were shown,
   if the founder signed one binding for the root, both replayed under the same recovery key.
   */
  lemma OneRecoveryKey(
      c: Crypto, pinned: Digest, signed: iset<Bytes>,
      x: RecoveryBinding, a: seq<Entry>, y: RecoveryBinding, b: seq<Entry>)
    requires RecoveryVerdict(c, x, a, pinned).Ok? && RecoveryVerdict(c, y, b, pinned).Ok?
    requires Unforgeable(c, a[0].event.device, signed) && SignedOneRecovery(pinned, signed)
    ensures x.recoveryKey == y.recoveryKey
         || HasCollision(c.hash, {EntryInput(NO_LINK, a[0]), EntryInput(NO_LINK, b[0])})
  {
    SameRootSameFounder(c, a, x.recoveryKey, b, y.recoveryKey);
    if a[0] == b[0] {
      hide Replayed;
      var p := Bind(RECOVERY_BINDING_CONTEXT, RecoveryMessage(pinned, x.recoveryKey));
      var q := Bind(RECOVERY_BINDING_CONTEXT, RecoveryMessage(pinned, y.recoveryKey));
      assert c.checks(a[0].event.device, p, x.signature);
      assert c.checks(a[0].event.device, q, y.signature);
    }
  }

  /**
   The binding an honest founder makes verifies, and no other log or binding for the root it names
   brings in another recovery key.
   */
  lemma PinnedKeyIsTheFounders(
      c: Crypto, entries: seq<Entry>, recovery: Bytes, founder: Signer, signed: iset<Bytes>,
      other: RecoveryBinding, shown: seq<Entry>)
    requires Accepted(c, entries, recovery) && entries[0].event.device == founder.key
    requires Attests(c, founder, signed, RECOVERY_BINDING_CONTEXT, RecoveryMessage(RootOfLog(entries), recovery))
    requires Unforgeable(c, founder.key, signed) && SignedOneRecovery(RootOfLog(entries), signed)
    requires RecoveryVerdict(c, other, shown, RootOfLog(entries)).Ok?
    ensures var created := CreateRecovery(c, entries, recovery, founder);
            created.Ok? && RecoveryVerdict(c, created.value, entries, RootOfLog(entries)).Ok?
    ensures other.recoveryKey == recovery
         || HasCollision(c.hash, {EntryInput(NO_LINK, entries[0]), EntryInput(NO_LINK, shown[0])})
  {
    CreatedRecoveryVerifies(c, entries, recovery, founder, signed);
    hide RecoveryVerdict, Attests, Unforgeable, SignedOneRecovery, HasCollision;
    var created := CreateRecovery(c, entries, recovery, founder).value;
    OneRecoveryKey(c, RootOfLog(entries), signed, created, entries, other, shown);
  }

  /** All of that can hold at once: a founder that signs its log and one recovery binding. */
  lemma HonestFounderExists(hash: Hasher, key: Blob, recovery: Bytes, labelText: Blob)
    returns (c: Crypto, founder: Signer, signed: iset<Bytes>, entries: seq<Entry>)
    requires |key| == VERIFYING_KEY_LENGTH && |labelText| <= MAX_LABEL_BYTES
    ensures c.hash == hash && founder.key == key
    ensures Accepted(c, entries, recovery) && entries[0].event.device == founder.key
    ensures Attests(c, founder, signed, RECOVERY_BINDING_CONTEXT, RecoveryMessage(RootOfLog(entries), recovery))
    ensures Unforgeable(c, founder.key, signed) && SignedOneRecovery(RootOfLog(entries), signed)
  {
    var id := DeviceId(hash, key);
    var founding := SignedBytes(NO_LINK, 0, Event.Create(key, labelText), id);
    var root := hash(LinkInput(founding, Zeros(SIGNATURE_LENGTH)));
    var binding := Bind(RECOVERY_BINDING_CONTEXT, RecoveryMessage(root, recovery));
    signed := iset{Bind(ENTRY_CONTEXT, founding), binding};
    var book: map<Bytes, iset<Bytes>> := map[key := signed];
    c := Notary(hash, book);
    founder := MarkOf(key);
    NotaryIsSound(hash, book, key);
    hide Accepted, Genuine, Unforgeable, RecoveryMessage, Bind;
    FounderAccepted(c, founder, signed, labelText, recovery);
    entries := [Candidate(c, [], founder, Event.Create(founder.key, labelText))];
    forall x: Bytes, y: Bytes |
      && Bind(RECOVERY_BINDING_CONTEXT, RecoveryMessage(root, x)) in signed
      && Bind(RECOVERY_BINDING_CONTEXT, RecoveryMessage(root, y)) in signed
      ensures x == y
    {
      OnlyRecovery(root, x, founding, recovery);
      OnlyRecovery(root, y, founding, recovery);
    }
  }

  lemma OnlyRecovery(root: Digest, x: Bytes, founding: Bytes, recovery: Bytes)
    requires var message := Bind(RECOVERY_BINDING_CONTEXT, RecoveryMessage(root, x));
             message == Bind(ENTRY_CONTEXT, founding)
             || message == Bind(RECOVERY_BINDING_CONTEXT, RecoveryMessage(root, recovery))
    ensures x == recovery
  {
    var message := RecoveryMessage(root, x);
    assert |RECOVERY_BINDING_CONTEXT| != |ENTRY_CONTEXT|;
    if Bind(RECOVERY_BINDING_CONTEXT, message) == Bind(ENTRY_CONTEXT, founding) {
      BindInjective(RECOVERY_BINDING_CONTEXT, message, ENTRY_CONTEXT, founding);
    } else {
      BindInjective(RECOVERY_BINDING_CONTEXT, message, RECOVERY_BINDING_CONTEXT, RecoveryMessage(root, recovery));
      SplitEqual(root, x, root, recovery);
    }
  }

  // ---------------------------------------------------------------- the epoch chain of an identity

  datatype EpochBinding = EpochBinding(
    identityRoot: Digest, identityHead: Digest, chainHead: Digest, epochs: u64, signer: Digest, signature: Bytes)

  function EpochMessage(b: EpochBinding): Bytes {
    b.identityRoot + b.identityHead + b.chainHead + U64(b.epochs) + b.signer
  }

  /** Equal messages make equal statements. */
  lemma EpochMessageInjective(a: EpochBinding, b: EpochBinding)
    requires EpochMessage(a) == EpochMessage(b)
    ensures a.(signature := b.signature) == b
  {
    SplitEqual(a.identityRoot + a.identityHead + a.chainHead + U64(a.epochs), a.signer,
               b.identityRoot + b.identityHead + b.chainHead + U64(b.epochs), b.signer);
    SplitEqual(a.identityRoot + a.identityHead + a.chainHead, U64(a.epochs),
               b.identityRoot + b.identityHead + b.chainHead, U64(b.epochs));
    U64Injective(a.epochs, b.epochs);
    SplitEqual(a.identityRoot + a.identityHead, a.chainHead, b.identityRoot + b.identityHead, b.chainHead);
    SplitEqual(a.identityRoot, a.identityHead, b.identityRoot, b.identityHead);
  }

  /** What a device states about a log and a chain, before it signs. */
  function Unsigned(c: Crypto, entries: seq<Entry>, key: Bytes, records: seq<EpochChains.EpochRecord>): EpochBinding
    requires |records| < 0x1_0000_0000_0000_0000
  {
    EpochBinding(RootOfLog(entries), HeadOf(entries), EpochChains.HeadOf(records), |records|, DeviceId(c.hash, key), [])
  }

  function CreateEpoch(c: Crypto, entries: seq<Entry>, m: Members, device: Signer,
                       records: seq<EpochChains.EpochRecord>)
    : Result<EpochBinding, IdentityError>
    requires |entries| < 0x1_0000_0000_0000_0000 && |records| < 0x1_0000_0000_0000_0000
  {
    var signer := DeviceId(c.hash, device.key);
    if signer !in m.devices then Err(Unauthorised(|entries|))
    else if EpochChains.ChainVerdict(c.hash, records).Fail? || records == [] then Err(StaleBinding)
    else
      var unsigned := Unsigned(c, entries, device.key, records);
      Ok(unsigned.(signature := Sign(device, EPOCH_BINDING_CONTEXT, EpochMessage(unsigned))))
  }

  /** The verdict, given the log's membership `m` and the records of the chain. */
  function EpochVerdict(c: Crypto, b: EpochBinding, entries: seq<Entry>, m: Members,
                        records: seq<EpochChains.EpochRecord>)
    : Outcome<IdentityError>
  {
    if RootOfLog(entries) != b.identityRoot then Fail(WrongIdentity)
    else if !(exists k :: 0 <= k < |entries| && entries[k].link == b.identityHead) then Fail(StaleBinding)
    else if EpochChains.ChainVerdict(c.hash, records).Fail? then Fail(StaleBinding)
    else if records == [] || |records| != b.epochs || EpochChains.HeadOf(records) != b.chainHead then Fail(StaleBinding)
    else if b.signer !in m.devices then Fail(Unauthorised(0))
    else if !Verifies(c, m.devices[b.signer].key, EPOCH_BINDING_CONTEXT, EpochMessage(b), b.signature)
      then Fail(BadBinding)
    else Pass
  }

  /** The device-id inputs behind the two keys a log and its extension record for one device. */
  ghost function SignerInputs(m: Members, m': Members, id: Digest): set<Bytes> {
    (if id in m.devices then {DeviceIdInput(m.devices[id].key)} else {})
    + (if id in m'.devices then {DeviceIdInput(m'.devices[id].key)} else {})
  }

  /** One device id names one key in every accepted log. */
  lemma OneKeyPerId(c: Crypto, a: seq<Entry>, recovery: Bytes, b: seq<Entry>, recovery': Bytes, id: Digest)
    requires Accepted(c, a, recovery) && Accepted(c, b, recovery')
    requires id in Replayed(c, a, recovery).value.devices && id in Replayed(c, b, recovery').value.devices
    ensures var m, m' := Replayed(c, a, recovery).value, Replayed(c, b, recovery').value;
            m.devices[id].key == m'.devices[id].key || HasCollision(c.hash, SignerInputs(m, m', id))
  {
    MembershipExplained(c, a, recovery, id);
    MembershipExplained(c, b, recovery', id);
    hide StateAfter, StandingOf;
    var m, m' := Replayed(c, a, recovery).value, Replayed(c, b, recovery').value;
    var x, y := m.devices[id].key, m'.devices[id].key;
    SameIdSameKey(c.hash, SignerInputs(m, m', id), x, y);
  }

  /**
   A binding that verified keeps its meaning as the log grows: on any accepted extension it
   verifies exactly while its signer is still a member, and is otherwise refused as unauthorised.
   */
  lemma BindingOnExtension(
      c: Crypto, b: EpochBinding, entries: seq<Entry>, longer: seq<Entry>, recovery: Bytes,
      records: seq<EpochChains.EpochRecord>)
    requires Accepted(c, entries, recovery) && Accepted(c, longer, recovery) && entries <= longer
    requires EpochVerdict(c, b, entries, Replayed(c, entries, recovery).value, records) == Pass
    ensures var m, m' := Replayed(c, entries, recovery).value, Replayed(c, longer, recovery).value;
            EpochVerdict(c, b, longer, m', records)
            == (if b.signer in m'.devices then Pass else Fail(Unauthorised(0)))
            || HasCollision(c.hash, SignerInputs(m, m', b.signer))
  {
    var m, m' := Replayed(c, entries, recovery).value, Replayed(c, longer, recovery).value;
    AcceptedBounds(c, entries, recovery);
    if b.signer in m'.devices {
      OneKeyPerId(c, entries, recovery, longer, recovery, b.signer);
    }
    hide Replayed, Accepted, HasCollision, SignerInputs, Verifies, EpochMessage;
    var k :| 0 <= k < |entries| && entries[k].link == b.identityHead;
    assert longer[k] == entries[k] && longer[0] == entries[0];
  }

  /** A member's freshly made binding verifies on the log and chain it was made for. */
  lemma CreatedBindingVerifies(
      c: Crypto, entries: seq<Entry>, recovery: Bytes, device: Signer, signed: iset<Bytes>,
      records: seq<EpochChains.EpochRecord>)
    requires Accepted(c, entries, recovery)
    requires EpochChains.ChainVerdict(c.hash, records) == Pass && records != []
    requires Attests(c, device, signed, EPOCH_BINDING_CONTEXT, EpochMessage(Unsigned(c, entries, device.key, records)))
    requires var m := Replayed(c, entries, recovery).value;
             var id := DeviceId(c.hash, device.key);
             id in m.devices && m.devices[id].key == device.key
    ensures |entries| <= MAX_ENTRIES
    ensures var m := Replayed(c, entries, recovery).value;
            var created := CreateEpoch(c, entries, m, device, records);
            created.Ok? && EpochVerdict(c, created.value, entries, m, records) == Pass
  {
    AcceptedBounds(c, entries, recovery);
    AttestedVerifies(c, device, signed, EPOCH_BINDING_CONTEXT, EpochMessage(Unsigned(c, entries, device.key, records)));
    hide Replayed, Accepted, EpochMessage, Attests, Verifies;
    var m := Replayed(c, entries, recovery).value;
    var created := CreateEpoch(c, entries, m, device, records);
    var unsigned := created.value.(signature := []);
    assert EpochMessage(created.value) == EpochMessage(unsigned) by { EpochMessageIgnoresSignature(created.value); }
    assert entries[|entries| - 1].link == created.value.identityHead;
  }

  lemma EpochMessageIgnoresSignature(b: EpochBinding)
    ensures EpochMessage(b) == EpochMessage(b.(signature := []))
  {
  }

  // ---------------------------------------------------------------- the wire forms

  const RECOVERY_BINDING_LENGTH := 32 + VERIFYING_KEY_LENGTH + SIGNATURE_LENGTH
  const EPOCH_BINDING_LENGTH := 136 + SIGNATURE_LENGTH

  function EncodeRecovery(b: RecoveryBinding): Bytes {
    b.root + b.recoveryKey + b.signature
  }

  function DecodeRecovery(c: Crypto, s: Bytes): Result<RecoveryBinding, IdentityError> {
    if |s| != RECOVERY_BINDING_LENGTH then Err(Malformed)
    else
      var root, key, signature := s[..32], s[32..][..VERIFYING_KEY_LENGTH], s[32..][VERIFYING_KEY_LENGTH..];
      if ValidKey(c, key) then Ok(RecoveryBinding(root, key, signature)) else Err(Malformed)
  }

  /** Bindings of the right sizes, and only they, are read back, each from one form. */
  lemma RecoveryRoundTrip(c: Crypto, b: RecoveryBinding, s: Bytes)
    ensures DecodeRecovery(c, s) == Ok(b)
       <==> s == EncodeRecovery(b) && ValidKey(c, b.recoveryKey) && |b.signature| == SIGNATURE_LENGTH
  {
    if DecodeRecovery(c, s) == Ok(b) {
      assert s == s[..32] + s[32..][..VERIFYING_KEY_LENGTH] + s[32..][VERIFYING_KEY_LENGTH..];
    }
    if s == EncodeRecovery(b) && ValidKey(c, b.recoveryKey) && |b.signature| == SIGNATURE_LENGTH {
      assert s[..32] == b.root && s[32..] == b.recoveryKey + b.signature;
      assert s[32..][..VERIFYING_KEY_LENGTH] == b.recoveryKey && s[32..][VERIFYING_KEY_LENGTH..] == b.signature;
    }
  }

  function EncodeEpoch(b: EpochBinding): Bytes {
    EpochMessage(b) + b.signature
  }

  function DecodeEpoch(s: Bytes): Result<EpochBinding, IdentityError> {
    if |s| != EPOCH_BINDING_LENGTH then Err(Malformed)
    else Ok(EpochBinding(s[..32], s[32..64], s[64..96], FromU64(s[96..104]), s[104..136], s[136..]))
  }

  lemma EpochBindingRoundTrip(b: EpochBinding, s: Bytes)
    ensures DecodeEpoch(s) == Ok(b) <==> s == EncodeEpoch(b) && |b.signature| == SIGNATURE_LENGTH
  {
    hide U64, FromU64;
    if DecodeEpoch(s) == Ok(b) {
      U64OfFrom(s[96..104]);
      assert s == s[..32] + s[32..64] + s[64..96] + s[96..104] + s[104..136] + s[136..];
    }
    if s == EncodeEpoch(b) && |b.signature| == SIGNATURE_LENGTH {
      U64RoundTrip(b.epochs);
      assert s[..32] == b.identityRoot && s[32..64] == b.identityHead && s[64..96] == b.chainHead;
      assert s[96..104] == U64(b.epochs) && s[104..136] == b.signer && s[136..] == b.signature;
    }
  }
}
