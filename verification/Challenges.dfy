/** Login challenges, and the nonces that are on record as used (crates/hide-sign/src/challenge.rs). */
module Challenges {
  import opened Bytes
  import opened Cbor
  import opened Hashing
  import opened Results
  import opened Signing

  const CHALLENGE_CONTEXT: Blob := Ascii("HIDE/0.5 challenge")
  const U64_MAX: u64 := 0xffff_ffff_ffff_ffff

  /** A nonce is 32 bytes; the audience is kept as its UTF-8 bytes. */
  datatype Challenge = Challenge(nonce: Digest, audience: Blob, issuedAt: u64, validFor: u64)

  /** Saturating: a challenge may outlive the clock, but never wraps around to the past. */
  function ExpiresAt(c: Challenge): u64 {
    if c.issuedAt + c.validFor > U64_MAX then U64_MAX else c.issuedAt + c.validFor
  }

  // ---------------------------------------------------------------- the wire and signed form

  function Encode(c: Challenge): Bytes {
    c.nonce + Field(c.audience) + U64(c.issuedAt) + U64(c.validFor)
  }

  datatype ChallengeError = NotSigned | Expired | Replayed | MalformedChallenge

  /** The first `n` bytes and the rest, if there are that many. */
  function SplitAt(s: Bytes, n: nat): Option<(Bytes, Bytes)> {
    if n <= |s| then Some((s[..n], s[n..])) else None
  }

  function Decode(s: Bytes): Result<Challenge, ChallengeError> {
    match SplitAt(s, 32)
    case None => Err(MalformedChallenge)
    case Some((nonce, s1)) =>
      match SplitAt(s1, 8)
      case None => Err(MalformedChallenge)
      case Some((length, s2)) =>
        match SplitAt(s2, FromU64(length))
        case None => Err(MalformedChallenge)
        case Some((audience, s3)) =>
          match SplitAt(s3, 8)
          case None => Err(MalformedChallenge)
          case Some((issuedAt, s4)) =>
            match SplitAt(s4, 8)
            case None => Err(MalformedChallenge)
            case Some((validFor, rest)) =>
              if rest != [] || !Utf8(audience) || |audience| >= 0x2000_0000_0000_0000 then Err(MalformedChallenge)
              else Ok(Challenge(nonce, audience, FromU64(issuedAt), FromU64(validFor)))
  }

  lemma SplitAtAppend(a: Bytes, b: Bytes)
    ensures SplitAt(a + b, |a|) == Some((a, b))
  {
    assert (a + b)[..|a|] == a && (a + b)[|a|..] == b;
  }

  lemma ChallengeRoundTrip(c: Challenge)
    requires Utf8(c.audience)
    ensures Decode(Encode(c)) == Ok(c)
  {
    var s4 := U64(c.validFor) + [];
    var s3 := U64(c.issuedAt) + s4;
    var s2 := c.audience + s3;
    var s1 := U64(|c.audience|) + s2;
    assert Encode(c) == c.nonce + s1;
    U64RoundTrip(c.validFor);
    U64RoundTrip(c.issuedAt);
    U64RoundTrip(|c.audience|);
    SplitAtAppend(c.nonce, s1);
    SplitAtAppend(U64(|c.audience|), s2);
    SplitAtAppend(c.audience, s3);
    SplitAtAppend(U64(c.issuedAt), s4);
    SplitAtAppend(U64(c.validFor), []);
    hide SplitAt, U64, FromU64, Utf8, Encode;
  }

  /** A challenge has one encoding: what decodes is the encoding of what it decodes to. */
  lemma ChallengeCanonical(s: Bytes)
    requires Decode(s).Ok?
    ensures Encode(Decode(s).value) == s
  {
    hide Utf8, U64, FromU64, Encode;
    var c := Decode(s).value;
    var s1 := s[32..];
    var s2 := s1[8..];
    var s3 := s2[FromU64(s1[..8])..];
    var s4 := s3[8..];
    U64OfFrom(s1[..8]);
    U64OfFrom(s3[..8]);
    U64OfFrom(s4[..8]);
    assert s == s[..32] + s1 && s1 == s1[..8] + s2 && s2 == c.audience + s3 && s3 == s3[..8] + s4;
    assert s4 == s4[..8];
    EncodeParts(c);
  }

  lemma EncodeParts(c: Challenge)
    ensures Encode(c) == c.nonce + (U64(|c.audience|) + (c.audience + (U64(c.issuedAt) + U64(c.validFor))))
  {
    hide U64;
  }

  // ---------------------------------------------------------------- accepting an answer

  datatype Attempt = Attempt(challenge: Challenge, signature: Bytes, prover: Bytes, now: u64)

  type Seen = seq<(Digest, u64)>

  /** The entries a verifier still keeps at `now`. */
  function Unexpired(seen: Seen, now: u64): (kept: Seen)
    ensures forall e :: e in kept <==> e in seen && e.1 >= now
  {
    if seen == [] then []
    else
      var kept := Unexpired(seen[..|seen| - 1], now);
      if seen[|seen| - 1].1 >= now then kept + [seen[|seen| - 1]] else kept
  }

  predicate Spent(seen: Seen, nonce: Digest) {
    exists i :: 0 <= i < |seen| && seen[i].0 == nonce
  }

  /** The outcome of one attempt and the record after it. */
  function Judged(c: Crypto, seen: Seen, a: Attempt): (Outcome<ChallengeError>, Seen) {
    if a.now > ExpiresAt(a.challenge) then (Fail(Expired), seen)
    else if !Verifies(c, a.prover, CHALLENGE_CONTEXT, Encode(a.challenge), a.signature) then (Fail(NotSigned), seen)
    else
      var kept := Unexpired(seen, a.now);
      if Spent(kept, a.challenge.nonce) then (Fail(Replayed), kept)
      else (Pass, kept + [(a.challenge.nonce, ExpiresAt(a.challenge))])
  }

  class SpentNonces {
    var seen: Seen

    constructor ()
      ensures seen == []
    {
      seen := [];
    }

    method Accept(c: Crypto, challenge: Challenge, signature: Bytes, prover: Bytes, now: u64)
      returns (outcome: Outcome<ChallengeError>)
      modifies this
      ensures (outcome, seen) == Judged(c, old(seen), Attempt(challenge, signature, prover, now))
    {
      if now > ExpiresAt(challenge) {
        return Fail(Expired);
      }
      if !Verifies(c, prover, CHALLENGE_CONTEXT, Encode(challenge), signature) {
        return Fail(NotSigned);
      }
      ForgetExpired(now);
      for i := 0 to |seen|
        invariant forall j :: 0 <= j < i ==> seen[j].0 != challenge.nonce
      {
        if seen[i].0 == challenge.nonce {
          return Fail(Replayed);
        }
      }
      seen := seen + [(challenge.nonce, ExpiresAt(challenge))];
      return Pass;
    }

    method ForgetExpired(now: u64)
      modifies this
      ensures seen == Unexpired(old(seen), now)
    {
      var kept: Seen := [];
      for i := 0 to |seen|
        invariant kept == Unexpired(seen[..i], now) && seen == old(seen)
      {
        assert seen[..i + 1][..i] == seen[..i];
        if seen[i].1 >= now {
          kept := kept + [seen[i]];
        }
      }
      assert seen[..|seen|] == seen;
      seen := kept;
    }
  }

  // ---------------------------------------------------------------- whole runs

  /** The record after a run of attempts, starting from nothing. */
  function SeenAfter(c: Crypto, run: seq<Attempt>): Seen {
    if run == [] then [] else Judged(c, SeenAfter(c, run[..|run| - 1]), run[|run| - 1]).1
  }

  /** Whether attempt `k` of a run is accepted. */
  predicate AcceptedAt(c: Crypto, run: seq<Attempt>, k: nat)
    requires k < |run|
  {
    Judged(c, SeenAfter(c, run[..k]), run[k]).0.Pass?
  }

  predicate ClockRuns(run: seq<Attempt>) {
    forall i, j :: 0 <= i < j < |run| ==> run[i].now <= run[j].now
  }

  lemma SeenStep(c: Crypto, run: seq<Attempt>, k: nat)
    requires k < |run|
    ensures SeenAfter(c, run[..k + 1]) == Judged(c, SeenAfter(c, run[..k]), run[k]).1
  {
    assert run[..k + 1][..k] == run[..k];
  }

  /** An accepted nonce stays on record until the clock has passed its challenge's expiry. */
  lemma {:induction false} RecordedUntilExpiry(c: Crypto, run: seq<Attempt>, i: nat, k: nat)
    requires i < k <= |run| && ClockRuns(run) && AcceptedAt(c, run, i)
    ensures var entry := (run[i].challenge.nonce, ExpiresAt(run[i].challenge));
            entry in SeenAfter(c, run[..k]) || run[k - 1].now > entry.1
    decreases k
  {
    hide Encode, ExpiresAt, Verifies, SeenAfter, Judged, Spent;
    SeenStep(c, run, k - 1);
    JudgedFacts(c, SeenAfter(c, run[..k - 1]), run[k - 1]);
    if i + 1 < k {
      RecordedUntilExpiry(c, run, i, k - 1);
      assert run[k - 2].now <= run[k - 1].now;
    }
  }

  // ---------------------------------------------------------------- exactly when a nonce is accepted again

  /** An attempt that gets as far as the record: in time and signed. */
  predicate Reaches(c: Crypto, a: Attempt) {
    && a.now <= ExpiresAt(a.challenge)
    && Verifies(c, a.prover, CHALLENGE_CONTEXT, Encode(a.challenge), a.signature)
  }

  /** Some attempt after `i` and before `k` made the verifier forget what `i` left on record. */
  predicate Forgotten(c: Crypto, run: seq<Attempt>, i: nat, k: nat)
    requires i < k <= |run|
  {
    exists m :: i < m < k && Reaches(c, run[m]) && run[m].now > ExpiresAt(run[i].challenge)
  }

  /** Nothing with the nonce of `i` was accepted after it and before `k`. */
  predicate NoneBetween(c: Crypto, run: seq<Attempt>, i: nat, k: nat)
    requires i < k <= |run|
  {
    forall m :: i < m < k && run[m].challenge.nonce == run[i].challenge.nonce ==> !AcceptedAt(c, run, m)
  }

  lemma JudgedExactly(c: Crypto, seen: Seen, a: Attempt)
    ensures var (outcome, after) := Judged(c, seen, a);
            var kept := Unexpired(seen, a.now);
            && (outcome.Pass? <==> Reaches(c, a) && !Spent(kept, a.challenge.nonce))
            && after == if outcome.Pass? then kept + [EntryOf(a)] else if Reaches(c, a) then kept else seen
  {
    hide Encode, ExpiresAt, Verifies, Spent, Unexpired;
  }

  /** On record with this nonce: exactly this entry if it is `present`, and nothing otherwise. */
  ghost predicate OnRecord(seen: Seen, e: (Digest, u64), present: bool) {
    forall x :: x in seen && x.0 == e.0 <==> present && x == e
  }

  lemma OnRecordStep(seen: Seen, e: (Digest, u64), present: bool, now: u64, more: Seen)
    requires OnRecord(seen, e, present) && forall x :: x in more ==> x.0 != e.0
    ensures OnRecord(Unexpired(seen, now) + more, e, present && e.1 >= now)
  {
    hide Unexpired;
  }

  lemma SpentOnRecord(seen: Seen, e: (Digest, u64), present: bool)
    requires OnRecord(seen, e, present)
    ensures Spent(seen, e.0) <==> present
  {
    if present {
      assert e in seen;
    }
    assert forall i :: 0 <= i < |seen| ==> seen[i] in seen;
  }

  /** What acceptance left on record is still there exactly as long as no attempt made it forgotten. */
  lemma {:induction false} OnRecordExactly(c: Crypto, run: seq<Attempt>, i: nat, k: nat)
    requires i < k <= |run| && AcceptedAt(c, run, i) && NoneBetween(c, run, i, k)
    ensures OnRecord(SeenAfter(c, run[..k]), EntryOf(run[i]), !Forgotten(c, run, i, k))
    decreases k
  {
    hide Judged, SeenAfter, Reaches, Unexpired, Spent, OnRecord;
    var a, seen := run[k - 1], SeenAfter(c, run[..k - 1]);
    SeenStep(c, run, k - 1);
    JudgedExactly(c, seen, a);
    if k == i + 1 {
      FreshlyRecorded(Unexpired(seen, a.now), EntryOf(a));
    } else {
      OnRecordExactly(c, run, i, k - 1);
      assert Forgotten(c, run, i, k)
        <==> Forgotten(c, run, i, k - 1) || (Reaches(c, a) && a.now > ExpiresAt(run[i].challenge));
      var more := if Judged(c, seen, a).0.Pass? then [EntryOf(a)] else [];
      assert a.challenge.nonce == run[i].challenge.nonce ==> !AcceptedAt(c, run, k - 1);
      OnRecordStep(seen, EntryOf(run[i]), !Forgotten(c, run, i, k - 1), a.now, more);
      assert Unexpired(seen, a.now) + [] == Unexpired(seen, a.now);
    }
  }

  lemma FreshlyRecorded(kept: Seen, e: (Digest, u64))
    requires !Spent(kept, e.0)
    ensures OnRecord(kept + [e], e, true)
  {
  }

  /**
   With no assumption on the clock: after an acceptance, the next attempt with that nonce is accepted
   if and only if it is in time and signed, and the first challenge's expiry has been passed, either
   now or by an attempt in between that made the verifier clear its record.
   */
  lemma AcceptedAgainExactly(c: Crypto, run: seq<Attempt>, i: nat, j: nat)
    requires i < j < |run| && AcceptedAt(c, run, i) && NoneBetween(c, run, i, j)
    requires run[i].challenge.nonce == run[j].challenge.nonce
    ensures AcceptedAt(c, run, j)
       <==> Reaches(c, run[j]) && (run[j].now > ExpiresAt(run[i].challenge) || Forgotten(c, run, i, j))
  {
    hide Judged, SeenAfter, Reaches, Unexpired, Spent, OnRecord, Forgotten, NoneBetween, ExpiresAt;
    var seen, e := SeenAfter(c, run[..j]), EntryOf(run[i]);
    OnRecordExactly(c, run, i, j);
    JudgedExactly(c, seen, run[j]);
    OnRecordStep(seen, e, !Forgotten(c, run, i, j), run[j].now, []);
    assert Unexpired(seen, run[j].now) + [] == Unexpired(seen, run[j].now);
    SpentOnRecord(Unexpired(seen, run[j].now), e, !Forgotten(c, run, i, j) && e.1 >= run[j].now);
  }

  /** The same challenge is accepted again exactly when the clock was seen past its expiry and stepped back. */
  lemma AcceptedTwiceExactly(c: Crypto, run: seq<Attempt>, i: nat, j: nat)
    requires i < j < |run| && AcceptedAt(c, run, i) && NoneBetween(c, run, i, j)
    requires run[i].challenge == run[j].challenge
    ensures AcceptedAt(c, run, j) <==> Reaches(c, run[j]) && Forgotten(c, run, i, j)
  {
    AcceptedAgainExactly(c, run, i, j);
    hide AcceptedAt, Forgotten, NoneBetween, ExpiresAt, Verifies, Encode;
  }

  // ---------------------------------------------------------------- with a clock that does not run back

  /** Two acceptances of one nonce are separated by the first one's expiry. */
  lemma {:induction false} SeparatedByExpiry(c: Crypto, run: seq<Attempt>, i: nat, j: nat)
    requires i < j < |run| && ClockRuns(run)
    requires AcceptedAt(c, run, i) && AcceptedAt(c, run, j)
    requires run[i].challenge.nonce == run[j].challenge.nonce
    ensures run[j].now > ExpiresAt(run[i].challenge)
    decreases j
  {
    hide AcceptedAt, Reaches, ExpiresAt;
    if NoneBetween(c, run, i, j) {
      AcceptedAgainExactly(c, run, i, j);
    } else {
      var m :| i < m < j && run[m].challenge.nonce == run[i].challenge.nonce && AcceptedAt(c, run, m);
      SeparatedByExpiry(c, run, i, m);
    }
  }

  /** No challenge is accepted twice, however often and by whomever it is answered. */
  lemma AcceptedOnce(c: Crypto, run: seq<Attempt>, i: nat, j: nat)
    requires i < j < |run| && ClockRuns(run)
    requires AcceptedAt(c, run, i) && run[i].challenge == run[j].challenge
    ensures !AcceptedAt(c, run, j)
  {
    if AcceptedAt(c, run, j) {
      SeparatedByExpiry(c, run, i, j);
    }
  }

  predicate Distinct(seen: Seen) {
    forall i, j :: 0 <= i < j < |seen| ==> seen[i].0 != seen[j].0
  }

  function EntryOf(a: Attempt): (Digest, u64) {
    (a.challenge.nonce, ExpiresAt(a.challenge))
  }

  /** The entry was written by an accepted attempt of the run. */
  ghost predicate WrittenIn(c: Crypto, run: seq<Attempt>, e: (Digest, u64)) {
    exists i :: 0 <= i < |run| && AcceptedAt(c, run, i) && e == EntryOf(run[i])
  }

  /** What the record holds after any run: distinct nonces, each from an attempt that was accepted. */
  ghost predicate WellKept(c: Crypto, run: seq<Attempt>) {
    && Distinct(SeenAfter(c, run))
    && (forall e :: e in SeenAfter(c, run) ==> WrittenIn(c, run, e))
  }

  /** How one attempt changes the record. */
  lemma JudgedFacts(c: Crypto, seen: Seen, a: Attempt)
    ensures var (outcome, after) := Judged(c, seen, a);
            var kept := Unexpired(seen, a.now);
            if outcome.Pass?
            then after == kept + [EntryOf(a)] && !Spent(kept, a.challenge.nonce) && EntryOf(a).1 >= a.now
            else after == seen || after == kept
  {
    hide Encode, ExpiresAt, Verifies, Spent, Unexpired;
  }

  lemma DistinctSnoc(seen: Seen, e: (Digest, u64))
    requires Distinct(seen) && !Spent(seen, e.0)
    ensures Distinct(seen + [e])
  {
  }

  lemma {:induction false} UnexpiredDistinct(seen: Seen, now: u64)
    requires Distinct(seen)
    ensures Distinct(Unexpired(seen, now))
  {
    if seen != [] {
      var front, e := seen[..|seen| - 1], seen[|seen| - 1];
      UnexpiredDistinct(front, now);
      UnexpiredNotSpent(seen, now);
      DistinctSnoc(Unexpired(front, now), e);
      hide Distinct, Spent;
    }
  }

  lemma UnexpiredNotSpent(seen: Seen, now: u64)
    requires seen != [] && Distinct(seen)
    ensures !Spent(Unexpired(seen[..|seen| - 1], now), seen[|seen| - 1].0)
  {
    var front := seen[..|seen| - 1];
    var kept := Unexpired(front, now);
    hide Unexpired;
    forall i | 0 <= i < |kept| ensures kept[i].0 != seen[|seen| - 1].0 {
      assert kept[i] in kept && kept[i] in front;
      var j :| 0 <= j < |front| && front[j] == kept[i];
    }
  }

  /** An accepted attempt stays accepted when the run goes on. */
  lemma WrittenStays(c: Crypto, run: seq<Attempt>, e: (Digest, u64))
    requires run != [] && WrittenIn(c, run[..|run| - 1], e)
    ensures WrittenIn(c, run, e)
  {
    var front := run[..|run| - 1];
    hide Encode, ExpiresAt, Verifies, SeenAfter, Judged;
    var i :| 0 <= i < |front| && AcceptedAt(c, front, i) && e == EntryOf(front[i]);
    assert front[..i] == run[..i];
    assert AcceptedAt(c, run, i);
  }

  lemma {:induction false} RecordWellKept(c: Crypto, run: seq<Attempt>)
    ensures WellKept(c, run)
    decreases |run|
  {
    hide Encode, ExpiresAt, Verifies, Unexpired, Judged, Spent, Distinct, WrittenIn, EntryOf;
    if run == [] {
      assert Distinct([]) by { EmptyDistinct(); }
    } else {
      var front, a := run[..|run| - 1], run[|run| - 1];
      RecordWellKept(c, front);
      var seen := SeenAfter(c, front);
      JudgedFacts(c, seen, a);
      UnexpiredDistinct(seen, a.now);
      if Judged(c, seen, a).0.Pass? {
        assert !Spent(Unexpired(seen, a.now), EntryOf(a).0) by { EntryNonce(a); }
        DistinctSnoc(Unexpired(seen, a.now), EntryOf(a));
        LastWritten(c, run);
      }
      forall e | e in SeenAfter(c, run) ensures WrittenIn(c, run, e) {
        if e in seen {
          WrittenStays(c, run, e);
        }
      }
    }
  }

  lemma EmptyDistinct()
    ensures Distinct([])
  {
  }

  lemma EntryNonce(a: Attempt)
    ensures EntryOf(a).0 == a.challenge.nonce
  {
  }

  lemma LastWritten(c: Crypto, run: seq<Attempt>)
    requires run != [] && AcceptedAt(c, run, |run| - 1)
    ensures WrittenIn(c, run, EntryOf(run[|run| - 1]))
  {
    hide AcceptedAt, EntryOf;
  }

  /** An acceptance leaves nothing on record that has expired. */
  lemma AcceptanceLeavesLive(c: Crypto, run: seq<Attempt>, k: nat, e: (Digest, u64))
    requires k < |run| && AcceptedAt(c, run, k) && e in SeenAfter(c, run[..k + 1])
    ensures e.1 >= run[k].now
  {
    SeenStep(c, run, k);
    JudgedFacts(c, SeenAfter(c, run[..k]), run[k]);
    hide Encode, ExpiresAt, Verifies, SeenAfter, Judged, Spent, EntryOf;
  }

  /** A refusal as a replay always points at an earlier acceptance that has not expired. */
  lemma ReplayHasCause(c: Crypto, run: seq<Attempt>, k: nat) returns (i: nat)
    requires k < |run| && Judged(c, SeenAfter(c, run[..k]), run[k]).0 == Fail(Replayed)
    ensures i < k && AcceptedAt(c, run, i)
    ensures run[i].challenge.nonce == run[k].challenge.nonce && ExpiresAt(run[i].challenge) >= run[k].now
  {
    var front, a := run[..k], run[k];
    RecordWellKept(c, front);
    var e := SpentEntry(c, SeenAfter(c, front), a);
    hide Encode, ExpiresAt, Verifies, SeenAfter, Judged, Spent, Unexpired, Distinct;
    assert WrittenIn(c, front, e);
    i :| 0 <= i < k && AcceptedAt(c, front, i) && e == EntryOf(front[i]);
    assert front[..i] == run[..i];
  }

  lemma SpentEntry(c: Crypto, seen: Seen, a: Attempt) returns (e: (Digest, u64))
    requires Judged(c, seen, a).0 == Fail(Replayed)
    ensures e in seen && e.0 == a.challenge.nonce && e.1 >= a.now
  {
    hide Encode, ExpiresAt, Verifies, Unexpired;
    var kept := Unexpired(seen, a.now);
    var n :| 0 <= n < |kept| && kept[n].0 == a.challenge.nonce;
    e := kept[n];
    assert e in kept;
  }

  /** The clock matters: let it step back and one challenge is accepted a second time. */
  lemma ClockMustNotRunBack(c: Crypto, signature: Bytes, other: Bytes, prover: Bytes)
    requires var first := Challenge(Zeros(32), [], 0, 10);
             var second := Challenge(Zeros(31) + [1], [], 20, 10);
             && Verifies(c, prover, CHALLENGE_CONTEXT, Encode(first), signature)
             && Verifies(c, prover, CHALLENGE_CONTEXT, Encode(second), other)
    ensures var first := Challenge(Zeros(32), [], 0, 10);
            var second := Challenge(Zeros(31) + [1], [], 20, 10);
            var run := [Attempt(first, signature, prover, 5), Attempt(second, other, prover, 20),
                        Attempt(first, signature, prover, 6)];
            AcceptedAt(c, run, 0) && AcceptedAt(c, run, 1) && AcceptedAt(c, run, 2)
  {
    hide Encode, Verifies, Judged, SeenAfter, Unexpired;
    var first := Challenge(Zeros(32), [], 0, 10);
    var second := Challenge(Zeros(31) + [1], [], 20, 10);
    var run := [Attempt(first, signature, prover, 5), Attempt(second, other, prover, 20),
                Attempt(first, signature, prover, 6)];
    assert first.nonce[31] != second.nonce[31];
    var one := (first.nonce, 10 as u64);
    assert SeenAfter(c, run[..0]) == [] && Unexpired([], 5) == [] by { NothingSeen(c, run); }
    UnexpiredOne(one, 20);
    SeenStep(c, run, 0);
    AcceptsFresh(c, [], run[0]);
    assert SeenAfter(c, run[..0 + 1]) == [one];
    AcceptsFresh(c, [one], run[1]);
    assert Reaches(c, run[1]) && run[1].now > ExpiresAt(run[0].challenge);
    AcceptedTwiceExactly(c, run, 0, 2);
  }

  lemma NothingSeen(c: Crypto, run: seq<Attempt>)
    ensures SeenAfter(c, run[..0]) == [] && Unexpired([], 5) == []
  {
  }

  lemma UnexpiredOne(e: (Digest, u64), now: u64)
    ensures Unexpired([e], now) == if e.1 >= now then [e] else []
  {
    assert [e][..0] == [];
  }

  /** What an attempt must meet to be accepted, and what acceptance leaves on record. */
  lemma AcceptsFresh(c: Crypto, seen: Seen, a: Attempt)
    requires Verifies(c, a.prover, CHALLENGE_CONTEXT, Encode(a.challenge), a.signature)
    requires a.now <= ExpiresAt(a.challenge) && !Spent(Unexpired(seen, a.now), a.challenge.nonce)
    ensures Judged(c, seen, a) == (Pass, Unexpired(seen, a.now) + [EntryOf(a)])
  {
    hide Encode, Verifies, Spent, Unexpired;
  }
}
