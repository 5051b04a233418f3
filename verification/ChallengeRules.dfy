/** When an answer is accepted, in plain integers and bytes, over whole runs (crates/hide-sign/src/challenge.rs). */
module ChallengeRules {
  import opened Bytes
  import opened Challenges
  import opened Hashing
  import opened Results
  import opened Signing
  import Cbor

  /** The bytes of a challenge, in the context of challenges. */
  function ChallengeStatement(c: Challenge): Bytes {
    U64(18) + Ascii("HIDE/0.5 challenge") + c.nonce + U64(|c.audience|) + c.audience + U64(c.issuedAt) + U64(c.validFor)
  }

  predicate InTime(a: Attempt) {
    a.now <= a.challenge.issuedAt + a.challenge.validFor
  }

  /** The answer is a signature by the prover's key over the challenge as it was made. */
  predicate Answers(c: Crypto, a: Attempt) {
    |a.signature| == 3373 && c.checks(a.prover, ChallengeStatement(a.challenge), a.signature)
  }

  /** What the verifier says to attempt `k` of a run. */
  function OutcomeAt(c: Crypto, run: seq<Attempt>, k: nat): Outcome<ChallengeError>
    requires k < |run|
  {
    Judged(c, SeenAfter(c, run[..k]), run[k]).0
  }

  /** Attempt `i` was accepted with the nonce of `k`, for a challenge that still holds at the time of `k`. */
  predicate HeldBy(c: Crypto, run: seq<Attempt>, i: nat, k: nat)
    requires i < |run| && k < |run|
  {
    && OutcomeAt(c, run, i) == Pass
    && run[i].challenge.nonce == run[k].challenge.nonce
    && run[k].now <= run[i].challenge.issuedAt + run[i].challenge.validFor
  }

  lemma StatementIsEncoding(c: Challenge)
    ensures Bind(CHALLENGE_CONTEXT, Encode(c)) == ChallengeStatement(c)
  {
    hide U64;
  }

  /** Saturation never shows: no clock reads more than the largest expiry. */
  lemma LateIsLate(now: u64, c: Challenge)
    ensures now > ExpiresAt(c) <==> now > c.issuedAt + c.validFor
  {
  }

  lemma ReachesExactly(c: Crypto, a: Attempt)
    ensures Reaches(c, a) <==> InTime(a) && Answers(c, a)
  {
    StatementIsEncoding(a.challenge);
    LateIsLate(a.now, a.challenge);
    hide Encode, Bind, ChallengeStatement, ExpiresAt;
  }

  /** Whatever went before, an answer is judged by the first of these that applies, and else accepted. */
  lemma OutcomeExactly(c: Crypto, run: seq<Attempt>, k: nat)
    requires k < |run|
    ensures OutcomeAt(c, run, k) == Fail(Expired) <==>
            run[k].now > run[k].challenge.issuedAt + run[k].challenge.validFor
    ensures OutcomeAt(c, run, k) == Fail(NotSigned) <==> InTime(run[k]) && !Answers(c, run[k])
    ensures OutcomeAt(c, run, k) in {Fail(Replayed), Pass} <==> InTime(run[k]) && Answers(c, run[k])
  {
    StatementIsEncoding(run[k].challenge);
    LateIsLate(run[k].now, run[k].challenge);
    hide Encode, Bind, ChallengeStatement, ExpiresAt, SeenAfter, Unexpired, Spent;
  }

  /** Nothing is refused as a replay but a nonce that an earlier attempt spent on a challenge that still holds. */
  lemma ReplayedIsHeld(c: Crypto, run: seq<Attempt>, k: nat) returns (i: nat)
    requires k < |run| && OutcomeAt(c, run, k) == Fail(Replayed)
    ensures i < k && HeldBy(c, run, i, k)
  {
    hide Judged, SeenAfter, ExpiresAt;
    i := ReplayHasCause(c, run, k);
    LateIsLate(run[k].now, run[i].challenge);
  }

  /** An answer in time is accepted if no earlier attempt of the run carried its nonce, whatever the clock did. */
  lemma FreshAnswerAccepted(c: Crypto, run: seq<Attempt>, k: nat)
    requires k < |run| && InTime(run[k]) && Answers(c, run[k])
    requires forall i :: 0 <= i < k ==> run[i].challenge.nonce != run[k].challenge.nonce
    ensures OutcomeAt(c, run, k) == Pass
  {
    hide OutcomeAt, InTime, Answers;
    OutcomeExactly(c, run, k);
    if OutcomeAt(c, run, k) == Fail(Replayed) {
      var i := ReplayedIsHeld(c, run, k);
    }
  }

  /**
   With a clock that does not run back, an answer is accepted if and only if it is in time, it is the
   prover's signature, and its nonce was not accepted earlier for a challenge that still holds.
   */
  lemma AcceptedExactly(c: Crypto, run: seq<Attempt>, k: nat)
    requires k < |run| && ClockRuns(run)
    ensures OutcomeAt(c, run, k) == Pass
       <==> InTime(run[k]) && Answers(c, run[k]) && forall i :: 0 <= i < k ==> !HeldBy(c, run, i, k)
  {
    OutcomeExactly(c, run, k);
    hide Judged, SeenAfter, InTime, Answers, ExpiresAt;
    if OutcomeAt(c, run, k) == Fail(Replayed) {
      var i := ReplayedIsHeld(c, run, k);
    }
    if OutcomeAt(c, run, k) == Pass {
      forall i | 0 <= i < k ensures !HeldBy(c, run, i, k) {
        if HeldBy(c, run, i, k) {
          SeparatedByExpiry(c, run, i, k);
          LateIsLate(run[k].now, run[i].challenge);
        }
      }
    }
  }

  /** An accepted answer was signed: if nothing verifies under the key but what its holder signed, it signed this. */
  lemma AcceptedWasSigned(c: Crypto, run: seq<Attempt>, k: nat, signed: iset<Bytes>)
    requires k < |run| && OutcomeAt(c, run, k) == Pass && Unforgeable(c, run[k].prover, signed)
    ensures ChallengeStatement(run[k].challenge) in signed
  {
    hide OutcomeAt, ChallengeStatement;
    OutcomeExactly(c, run, k);
  }

  /** What is on record after an attempt: only an answer that is in time and signed clears what has expired. */
  lemma RecordExactly(c: Crypto, run: seq<Attempt>, k: nat, nonce: Digest, until: u64)
    requires k < |run|
    ensures (nonce, until) in SeenAfter(c, run[..k + 1])
       <==> || ((nonce, until) in SeenAfter(c, run[..k])
                && (InTime(run[k]) && Answers(c, run[k]) ==> until >= run[k].now))
            || (OutcomeAt(c, run, k) == Pass && nonce == run[k].challenge.nonce
                && until == if run[k].challenge.issuedAt + run[k].challenge.validFor < 0x1_0000_0000_0000_0000
                            then run[k].challenge.issuedAt + run[k].challenge.validFor
                            else 0xffff_ffff_ffff_ffff)
  {
    SeenStep(c, run, k);
    JudgedExactly(c, SeenAfter(c, run[..k]), run[k]);
    ReachesExactly(c, run[k]);
    hide Reaches, Judged, SeenAfter, InTime, Answers, Unexpired, Spent;
  }

  /** Bytes are read as a challenge if and only if its audience is text and they are its fields in order. */
  lemma DecodedExactly(s: Bytes, c: Challenge)
    ensures Decode(s) == Ok(c)
       <==> Cbor.Utf8(c.audience) && s == c.nonce + U64(|c.audience|) + c.audience + U64(c.issuedAt) + U64(c.validFor)
  {
    EncodeParts(c);
    hide Decode, Encode, U64, Cbor.Utf8;
    assert c.nonce + (U64(|c.audience|) + (c.audience + (U64(c.issuedAt) + U64(c.validFor))))
        == c.nonce + U64(|c.audience|) + c.audience + U64(c.issuedAt) + U64(c.validFor);
    if Decode(s) == Ok(c) {
      ChallengeCanonical(s);
      AudienceIsText(s);
    }
    if Cbor.Utf8(c.audience) {
      ChallengeRoundTrip(c);
    }
  }

  lemma AudienceIsText(s: Bytes)
    requires Decode(s).Ok?
    ensures Cbor.Utf8(Decode(s).value.audience)
  {
    hide Cbor.Utf8, SplitAt, FromU64;
  }
}
