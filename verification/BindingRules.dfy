/** What a binding that verifies proves, and exactly when it does (crates/hide-identity/src/bindings.rs). */
module BindingRules {
  import opened Bindings
  import opened Bytes
  import opened Hashing
  import opened IdentityEntries
  import opened IdentityHistory
  import opened IdentityLogs
  import opened Memberships
  import opened Results
  import opened Signing
  import EpochChains

  // ---------------------------------------------------------------- an epoch binding

  /** The 136 bytes of a binding, in the context of epoch bindings. */
  function EpochStatement(root: Digest, head: Digest, chainHead: Digest, epochs: u64, signer: Digest): Bytes {
    U64(22) + Ascii("HIDE/1.0 epoch binding") + root + head + chainHead + U64(epochs) + signer
  }

  function LastLink(records: seq<EpochChains.EpochRecord>): Digest
    requires records != []
  {
    records[|records| - 1].link
  }

  lemma StatementIsMessage(b: EpochBinding)
    ensures Bind(EPOCH_BINDING_CONTEXT, EpochMessage(b))
         == EpochStatement(b.identityRoot, b.identityHead, b.chainHead, b.epochs, b.signer)
  {
    hide U64;
  }

  /** The verdict on a binding, and the reason for every refusal, by what the log and the chain say. */
  lemma EpochVerdictExactly(
      c: Crypto, b: EpochBinding, entries: seq<Entry>, m: Members, records: seq<EpochChains.EpochRecord>)
    requires entries != []
    ensures EpochVerdict(c, b, entries, m, records)
         == if b.identityRoot != entries[0].link then Fail(WrongIdentity)
            else if forall k :: 0 <= k < |entries| ==> entries[k].link != b.identityHead then Fail(StaleBinding)
            else if EpochChains.ChainVerdict(c.hash, records).Fail? || records == [] then Fail(StaleBinding)
            else if |records| != b.epochs || LastLink(records) != b.chainHead then Fail(StaleBinding)
            else if b.signer !in m.devices then Fail(Unauthorised(0))
            else if |b.signature| == 3373
                    && c.checks(m.devices[b.signer].key,
                                EpochStatement(b.identityRoot, b.identityHead, b.chainHead, b.epochs, b.signer),
                                b.signature) then Pass
            else Fail(BadBinding)
  {
    StatementIsMessage(b);
    hide EpochChains.ChainVerdict, EpochMessage, Bind, EpochStatement;
  }

  /** One binding vouches for one chain, whatever logs it is checked against, or two links of chains collide. */
  lemma OneChainPerBinding(
      c: Crypto, b: EpochBinding, entries: seq<Entry>, m: Members, records: seq<EpochChains.EpochRecord>,
      entries': seq<Entry>, m': Members, records': seq<EpochChains.EpochRecord>)
    requires EpochVerdict(c, b, entries, m, records) == Pass && EpochVerdict(c, b, entries', m', records') == Pass
    ensures records == records'
         || HasCollision(c.hash, EpochChains.ChainInputs(records) + EpochChains.ChainInputs(records'))
  {
    hide Verifies, EpochMessage, HasCollision, EpochChains.ChainInputs, EpochChains.CheckRecords;
    EpochChains.ChainHeadCommits(c.hash, records, records');
  }

  /**
   A binding that verifies on an accepted log names a current member, and if nothing verifies under that
   member's key but what it signed, the member signed this very chain's head and length, for this log's
   root and a point of its history.
   */
  lemma EpochBindingSound(
      c: Crypto, b: EpochBinding, entries: seq<Entry>, recovery: Bytes, records: seq<EpochChains.EpochRecord>,
      signed: iset<Bytes>) returns (k: nat)
    requires Accepted(c, entries, recovery)
    requires EpochVerdict(c, b, entries, Replayed(c, entries, recovery).value, records) == Pass
    requires var m := Replayed(c, entries, recovery).value;
             b.signer in m.devices ==> Unforgeable(c, m.devices[b.signer].key, signed)
    ensures b.signer in Replayed(c, entries, recovery).value.devices
    ensures records != [] && |records| < 0x1_0000_0000_0000_0000 && EpochChains.ChainVerdict(c.hash, records) == Pass
    ensures k < |entries|
         && EpochStatement(entries[0].link, entries[k].link, LastLink(records), |records|, b.signer) in signed
  {
    AcceptedBounds(c, entries, recovery);
    hide Replayed, Accepted, EpochStatement, EpochChains.ChainVerdict, EpochVerdict;
    EpochVerdictExactly(c, b, entries, Replayed(c, entries, recovery).value, records);
    k :| 0 <= k < |entries| && entries[k].link == b.identityHead;
  }

  // ---------------------------------------------------------------- a recovery binding

  function RecoveryStatement(root: Digest, recoveryKey: Bytes): Bytes {
    U64(25) + Ascii("HIDE/1.0 recovery binding") + root + recoveryKey
  }

  /** The verdict against a pinned root, and the reason for every refusal. */
  lemma RecoveryVerdictExactly(c: Crypto, b: RecoveryBinding, entries: seq<Entry>, pinned: Digest)
    ensures RecoveryVerdict(c, b, entries, pinned)
         == if b.root != pinned then Err(WrongIdentity)
            else if entries == [] then Err(Empty)
            else if !entries[0].event.Create? then Err(BadRoot("another event"))
            else if !(|entries[0].event.device| == 1984 && c.keyParses(entries[0].event.device)) then Err(BadBinding)
            else if entries[0].link != pinned then Err(WrongIdentity)
            else if !(|b.signature| == 3373
                      && c.checks(entries[0].event.device, RecoveryStatement(pinned, b.recoveryKey), b.signature))
            then Err(BadBinding)
            else Replayed(c, entries, b.recoveryKey)
  {
    assert Bind(RECOVERY_BINDING_CONTEXT, RecoveryMessage(b.root, b.recoveryKey))
        == RecoveryStatement(b.root, b.recoveryKey) by { hide U64; }
    hide Replayed, RecoveryMessage, Bind, RecoveryStatement;
  }

  /**
   A log that verifies against a pinned root begins with the entry of that link, is accepted under the
   bound recovery key, and its founder signed that key for that root.
   */
  lemma RecoveryBindingSound(c: Crypto, b: RecoveryBinding, entries: seq<Entry>, pinned: Digest, signed: iset<Bytes>)
    requires RecoveryVerdict(c, b, entries, pinned).Ok?
    requires entries != [] && entries[0].event.Create? ==> Unforgeable(c, entries[0].event.device, signed)
    ensures entries != [] && entries[0].event.Create? && entries[0].link == pinned
    ensures Accepted(c, entries, b.recoveryKey) && RecoveryStatement(pinned, b.recoveryKey) in signed
  {
    RecoveryVerdictExactly(c, b, entries, pinned);
    hide Replayed, RecoveryVerdict, RecoveryStatement;
  }

  // ---------------------------------------------------------------- the files

  /** A recovery binding is 5389 bytes: root, a recovery key that parses, and signature. */
  lemma RecoveryBytesExactly(c: Crypto, s: Bytes, b: RecoveryBinding)
    ensures DecodeRecovery(c, s) == Ok(b)
       <==> && s == b.root + b.recoveryKey + b.signature
            && |b.recoveryKey| == 1984 && c.keyParses(b.recoveryKey) && |b.signature| == 3373
  {
    RecoveryRoundTrip(c, b, s);
    hide DecodeRecovery;
  }

  /** An epoch binding is 3509 bytes: its 136 signed ones, and signature. */
  lemma EpochBytesExactly(s: Bytes, b: EpochBinding)
    ensures DecodeEpoch(s) == Ok(b)
       <==> && s == b.identityRoot + b.identityHead + b.chainHead + U64(b.epochs) + b.signer + b.signature
            && |b.signature| == 3373
  {
    EpochBindingRoundTrip(b, s);
    hide DecodeEpoch, U64;
  }
}
