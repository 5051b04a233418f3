/** The fixed layout of encoded proofs: tag, two u64, a count and that many hashes. */
module ProofCodec {
  import opened Bytes
  import opened Hashing
  import opened MerkleProofs
  import opened Results

  const INCLUSION_TAG: byte := 0x01
  const CONSISTENCY_TAG: byte := 0x02
  const PROOF_HEADER := 18

  function PathBytes(path: seq<Digest>): (s: Bytes)
    ensures |s| == 32 * |path|
  {
    if path == [] then [] else PathBytes(path[..|path| - 1]) + path[|path| - 1]
  }

  /** The layout, for a path within the limit. */
  function Layout(tag: byte, first: u64, second: u64, path: seq<Digest>): Bytes
    requires |path| <= MAX_PROOF_LEN
  {
    [tag] + U64(first) + U64(second) + [|path|] + PathBytes(path)
  }

  method EncodeProof(tag: byte, first: u64, second: u64, path: seq<Digest>) returns (result: Result<Bytes, LogError>)
    ensures result == if |path| > MAX_PROOF_LEN then Err(ProofTooLong(|path|)) else Ok(Layout(tag, first, second, path))
  {
    if |path| > MAX_PROOF_LEN {
      return Err(ProofTooLong(|path|));
    }
    var out := [tag] + U64(first) + U64(second) + [|path|];
    for k := 0 to |path|
      invariant out == [tag] + U64(first) + U64(second) + [|path|] + PathBytes(path[..k])
    {
      assert path[..k + 1][..k] == path[..k];
      out := out + path[k];
    }
    assert path[..|path|] == path;
    return Ok(out);
  }

  function Chunks(s: Bytes): (path: seq<Digest>)
    requires |s| % 32 == 0
    ensures |path| == |s| / 32
  {
    seq(|s| / 32, i requires 0 <= i < |s| / 32 => s[32 * i..32 * i + 32])
  }

  function DecodeProof(tag: byte, s: Bytes): Result<(u64, u64, seq<Digest>), LogError> {
    if |s| < PROOF_HEADER || s[0] != tag then Err(Malformed)
    else
      var count := s[17];
      if count > MAX_PROOF_LEN then Err(ProofTooLong(count))
      else if |s| != PROOF_HEADER + 32 * count then Err(Malformed)
      else Ok((FromU64(s[1..9]), FromU64(s[9..17]), Chunks(s[PROOF_HEADER..])))
  }

  lemma {:induction false} ChunksOfPath(path: seq<Digest>, i: nat)
    requires i < |path|
    ensures PathBytes(path)[32 * i..32 * i + 32] == path[i]
  {
    var rest := path[..|path| - 1];
    if i < |rest| {
      ChunksOfPath(rest, i);
      assert PathBytes(path)[32 * i..32 * i + 32] == PathBytes(rest)[32 * i..32 * i + 32];
    }
  }

  lemma {:induction false} PathOfChunks(s: Bytes)
    requires |s| % 32 == 0
    ensures PathBytes(Chunks(s)) == s
  {
    if s != [] {
      var rest := s[..|s| - 32];
      PathOfChunks(rest);
      var path := Chunks(s);
      assert forall i :: 0 <= i < |path| - 1 ==> s[32 * i..32 * i + 32] == rest[32 * i..32 * i + 32];
      assert path[..|path| - 1] == Chunks(rest);
      assert s == rest + s[|s| - 32..];
    }
  }

  /** Decoding undoes encoding, and no encoding of one kind decodes as the other. */
  lemma ProofRoundTrip(tag: byte, first: u64, second: u64, path: seq<Digest>)
    requires |path| <= MAX_PROOF_LEN
    ensures DecodeProof(tag, Layout(tag, first, second, path)) == Ok((first, second, path))
    ensures forall other: byte :: other != tag ==>
            DecodeProof(other, Layout(tag, first, second, path)) == Err(Malformed)
  {
    var s := Layout(tag, first, second, path);
    U64RoundTrip(first);
    U64RoundTrip(second);
    assert s[1..9] == U64(first) && s[9..17] == U64(second) && s[17] == |path|;
    assert s[PROOF_HEADER..] == PathBytes(path);
    forall i | 0 <= i < |path|
      ensures Chunks(PathBytes(path))[i] == path[i]
    {
      ChunksOfPath(path, i);
    }
    assert Chunks(PathBytes(path)) == path;
  }

  /** Every byte string the decoder accepts is the one encoding of what it decodes to. */
  lemma ProofCanonical(tag: byte, s: Bytes)
    requires DecodeProof(tag, s).Ok?
    ensures var (first, second, path) := DecodeProof(tag, s).value;
            |path| <= MAX_PROOF_LEN && s == Layout(tag, first, second, path)
  {
    var (first, second, path) := DecodeProof(tag, s).value;
    U64OfFrom(s[1..9]);
    U64OfFrom(s[9..17]);
    PathOfChunks(s[PROOF_HEADER..]);
    assert s == [s[0]] + s[1..9] + s[9..17] + [s[17]] + s[PROOF_HEADER..];
  }

  // ---------------------------------------------------------------- the two kinds of proof

  function EncodedInclusion(proof: InclusionProof): Result<Bytes, LogError> {
    if |proof.path| > MAX_PROOF_LEN then Err(ProofTooLong(|proof.path|))
    else Ok(Layout(INCLUSION_TAG, proof.index, proof.size, proof.path))
  }

  function DecodedInclusion(s: Bytes): Result<InclusionProof, LogError> {
    var (index, size, path) :- DecodeProof(INCLUSION_TAG, s);
    Ok(InclusionProof(index, size, path))
  }

  function EncodedConsistency(proof: ConsistencyProof): Result<Bytes, LogError> {
    if |proof.path| > MAX_PROOF_LEN then Err(ProofTooLong(|proof.path|))
    else Ok(Layout(CONSISTENCY_TAG, proof.oldSize, proof.newSize, proof.path))
  }

  function DecodedConsistency(s: Bytes): Result<ConsistencyProof, LogError> {
    var (oldSize, newSize, path) :- DecodeProof(CONSISTENCY_TAG, s);
    Ok(ConsistencyProof(oldSize, newSize, path))
  }

  /** Bytes are read as an inclusion proof if and only if they are its encoding, and then as nothing else. */
  lemma InclusionBytesExactly(proof: InclusionProof, s: Bytes)
    ensures DecodedInclusion(s) == Ok(proof) <==> EncodedInclusion(proof) == Ok(s)
    ensures EncodedInclusion(proof) == Ok(s) ==> DecodedConsistency(s) == Err(Malformed)
  {
    hide DecodeProof, Layout;
    if EncodedInclusion(proof) == Ok(s) {
      ProofRoundTrip(INCLUSION_TAG, proof.index, proof.size, proof.path);
      assert DecodeProof(CONSISTENCY_TAG, s) == Err(Malformed);
    }
    if DecodedInclusion(s) == Ok(proof) {
      ProofCanonical(INCLUSION_TAG, s);
    }
  }

  /** And the same for a consistency proof. */
  lemma ConsistencyBytesExactly(proof: ConsistencyProof, s: Bytes)
    ensures DecodedConsistency(s) == Ok(proof) <==> EncodedConsistency(proof) == Ok(s)
    ensures EncodedConsistency(proof) == Ok(s) ==> DecodedInclusion(s) == Err(Malformed)
  {
    hide DecodeProof, Layout;
    if EncodedConsistency(proof) == Ok(s) {
      ProofRoundTrip(CONSISTENCY_TAG, proof.oldSize, proof.newSize, proof.path);
      assert DecodeProof(INCLUSION_TAG, s) == Err(Malformed);
    }
    if DecodedConsistency(s) == Ok(proof) {
      ProofCanonical(CONSISTENCY_TAG, s);
    }
  }
}
