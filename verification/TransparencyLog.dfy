/** The append-only log itself, the proofs it hands out and the runs a client makes of them. */
module TransparencyLogs {
  import opened Bytes
  import opened Hashing
  import opened MerkleTree
  import opened MerkleProofs
  import opened Results

  /** The log keeps one hash per entry; the entries themselves appear only as ghost state. */
  class TransparencyLog {
    const hasher: Hasher
    var leaves: seq<Digest>
    ghost var entries: seq<Bytes>

    ghost predicate Valid()
      reads this
    {
      && leaves == LeafHashes(hasher, entries)
      && |leaves| < 0x1_0000_0000_0000_0000
    }

    constructor (hasher: Hasher)
      ensures Valid() && entries == [] && this.hasher == hasher
    {
      this.hasher := hasher;
      leaves := [];
      entries := [];
    }

    /** A vector never holds 2^64 elements, which is all the precondition says. */
    method Append(data: Bytes) returns (index: u64)
      requires Valid() && |leaves| + 1 < 0x1_0000_0000_0000_0000
      modifies this
      ensures Valid() && entries == old(entries) + [data]
      ensures index == |old(entries)|
    {
      index := |leaves|;
      leaves := leaves + [LeafHash(hasher, data)];
      entries := entries + [data];
    }

    method Root() returns (root: Digest)
      requires Valid()
      ensures root == RootOf(hasher, LeafHashes(hasher, entries)) == TreeHash(hasher, entries)
    {
      RootIsTreeHash(hasher, entries);
      root := RootOf(hasher, leaves);
    }

    /** The log can always answer for its own past. */
    method RootAt(size: u64) returns (result: Result<Digest, LogError>)
      requires Valid()
      ensures size > |entries| ==> result == Err(OutOfRange(size, |entries|))
      ensures size <= |entries| ==> result == Ok(RootOf(hasher, LeafHashes(hasher, entries[..size])))
      ensures size <= |entries| ==> result == Ok(TreeHash(hasher, entries[..size]))
    {
      if size > |leaves| {
        return Err(OutOfRange(size, |leaves|));
      }
      assert leaves[..size] == LeafHashes(hasher, entries[..size]);
      RootIsTreeHash(hasher, entries[..size]);
      return Ok(RootOf(hasher, leaves[..size]));
    }

    /** Any verifier that holds the root at `size` accepts what this returns. */
    method ProveInclusion(index: u64, size: u64) returns (result: Result<InclusionProof, LogError>)
      requires Valid()
      ensures size > |entries| || index >= size ==> result == Err(OutOfRange(index, size))
      ensures size <= |entries| && index < size ==>
                && result.Ok?
                && result.value.index == index && result.value.size == size
                && InclusionVerdict(hasher, result.value, LeafHash(hasher, entries[index]),
                                    RootOf(hasher, LeafHashes(hasher, entries[..size]))) == Pass
    {
      if size > |leaves| || index >= size {
        return Err(OutOfRange(index, size));
      }
      var path := CollectInclusion(hasher, leaves[..size], index, []);
      assert path == InclusionPath(hasher, leaves[..size], index);
      InclusionComplete(hasher, leaves[..size], index);
      assert leaves[..size] == LeafHashes(hasher, entries[..size]);
      return Ok(InclusionProof(index, size, path));
    }

    /** Accepted by any verifier that holds both roots, unless the proof needs more than 64 hashes. */
    method ProveConsistency(oldSize: u64, newSize: u64) returns (result: Result<ConsistencyProof, LogError>)
      requires Valid()
      ensures newSize > |entries| ==> result == Err(OutOfRange(newSize, |entries|))
      ensures newSize <= |entries| && (oldSize > newSize || oldSize == 0) ==>
              result == Err(NotAPrefix(oldSize, newSize))
      ensures newSize <= |entries| && 0 < oldSize <= newSize ==>
                && result.Ok?
                && result.value.oldSize == oldSize && result.value.newSize == newSize
                && ConsistencyVerdict(hasher, result.value, RootOf(hasher, LeafHashes(hasher, entries[..oldSize])),
                                      RootOf(hasher, LeafHashes(hasher, entries[..newSize])))
                   == if |result.value.path| <= MAX_PROOF_LEN then Pass
                      else Fail(ProofTooLong(|result.value.path|))
    {
      if newSize > |leaves| {
        return Err(OutOfRange(newSize, |leaves|));
      }
      if oldSize > newSize || oldSize == 0 {
        return Err(NotAPrefix(oldSize, newSize));
      }
      var path := CollectConsistency(hasher, leaves[..newSize], oldSize, true, []);
      assert path == ConsistencyPath(hasher, leaves[..newSize], oldSize, true);
      ConsistencyHonest(hasher, leaves[..newSize], oldSize);
      hide *;
      assert leaves[..newSize] == LeafHashes(hasher, entries[..newSize]) by { HashesOfPrefix(newSize); }
      assert leaves[..newSize][..oldSize] == LeafHashes(hasher, entries[..oldSize]) by {
        HashesOfPrefix(oldSize);
        assert leaves[..newSize][..oldSize] == leaves[..oldSize];
      }
      return Ok(ConsistencyProof(oldSize, newSize, path));
    }

    lemma HashesOfPrefix(k: nat)
      requires Valid() && k <= |entries|
      ensures |leaves| == |entries| && leaves[..k] == LeafHashes(hasher, entries[..k])
    {
    }
  }

  /** Pushes the audit path onto `path`, deepest sibling first. */
  method CollectInclusion(h: Hasher, leaves: seq<Digest>, index: nat, path: seq<Digest>) returns (extended: seq<Digest>)
    requires index < |leaves|
    ensures extended == path + InclusionPath(h, leaves, index)
    decreases |leaves|
  {
    extended := path;
    if |leaves| <= 1 {
      return;
    }
    var split := LargestPowerOfTwoBelow(|leaves|);
    if index < split {
      extended := CollectInclusion(h, leaves[..split], index, extended);
      extended := extended + [RootOf(h, leaves[split..])];
    } else {
      extended := CollectInclusion(h, leaves[split..], index - split, extended);
      extended := extended + [RootOf(h, leaves[..split])];
    }
  }

  method CollectConsistency(h: Hasher, leaves: seq<Digest>, oldSize: nat, complete: bool, path: seq<Digest>)
    returns (extended: seq<Digest>)
    requires 0 < oldSize <= |leaves|
    ensures extended == path + ConsistencyPath(h, leaves, oldSize, complete)
    decreases |leaves|
  {
    extended := path;
    if oldSize == |leaves| {
      if !complete {
        extended := extended + [RootOf(h, leaves)];
      }
      return;
    }
    var split := LargestPowerOfTwoBelow(|leaves|);
    if oldSize <= split {
      extended := CollectConsistency(h, leaves[..split], oldSize, complete, extended);
      extended := extended + [RootOf(h, leaves[split..])];
    } else {
      extended := CollectConsistency(h, leaves[split..], oldSize - split, false, extended);
      extended := extended + [RootOf(h, leaves[..split])];
    }
  }

  // ---------------------------------------------------------------- runs of a client

  /** A size and the root a client has accepted for it. */
  datatype TreeHead = TreeHead(size: u64, root: Digest)

  /** Each head was accepted on the strength of one consistency proof from the head before it. */
  ghost predicate AcceptedRun(h: Hasher, heads: seq<TreeHead>, proofs: seq<ConsistencyProof>) {
    && |heads| == |proofs| + 1
    && forall i :: 0 <= i < |proofs| ==> AcceptedStep(h, heads[i], heads[i + 1], proofs[i])
  }

  ghost predicate AcceptedStep(h: Hasher, before: TreeHead, after: TreeHead, proof: ConsistencyProof) {
    && proof.oldSize == before.size && proof.newSize == after.size
    && ConsistencyVerdict(h, proof, before.root, after.root) == Pass
  }

  /** Everything hashed by the verifications of a run and by the log at the sizes it was asked about. */
  ghost function RunInputs(h: Hasher, leaves: seq<Digest>, heads: seq<TreeHead>, proofs: seq<ConsistencyProof>)
    : set<Bytes>
    requires |heads| == |proofs| + 1
  {
    (set i, x | 0 <= i < |proofs| && x in ConsistencyInputs(h, proofs[i], heads[i].root) :: x)
    + (set i, x | 0 <= i < |heads| && heads[i].size <= |leaves| && x in TreeInputs(h, leaves[..heads[i].size]) :: x)
  }

  /**
   History cannot be rewritten: if the last head of an accepted run is the root of some log, then
   every head the client ever held is the root of a prefix of that same log.
   */
  lemma {:induction false} RunSound(
      h: Hasher, leaves: seq<Digest>, heads: seq<TreeHead>, proofs: seq<ConsistencyProof>, i: nat)
    requires AcceptedRun(h, heads, proofs) && i < |heads|
    requires heads[|proofs|].size == |leaves| && heads[|proofs|].root == RootOf(h, leaves)
    ensures (heads[i].size <= |leaves| && heads[i].root == RootOf(h, leaves[..heads[i].size]))
         || HasCollision(h, RunInputs(h, leaves, heads, proofs))
    decreases |heads| - i
  {
    if i == |proofs| {
      assert leaves[..|leaves|] == leaves;
    } else {
      RunSound(h, leaves, heads, proofs, i + 1);
      var next := heads[i + 1];
      assert AcceptedStep(h, heads[i], next, proofs[i]);
      if next.size <= |leaves| && next.root == RootOf(h, leaves[..next.size]) {
        var known := leaves[..next.size];
        ConsistencySound(h, known, proofs[i], heads[i].root);
        CollisionMonotonic(h, ConsistencyInputs(h, proofs[i], heads[i].root) + TreeInputs(h, known),
                           RunInputs(h, leaves, heads, proofs));
        assert heads[i].size <= next.size ==> known[..heads[i].size] == leaves[..heads[i].size];
      }
    }
  }

  /** What a client saw included under any head of a run is still there under the last one. */
  lemma InclusionSurvives(
      h: Hasher, leaves: seq<Digest>, heads: seq<TreeHead>, proofs: seq<ConsistencyProof>,
      i: nat, shown: InclusionProof, leaf: Digest)
    requires AcceptedRun(h, heads, proofs) && i < |heads|
    requires heads[|proofs|].size == |leaves| && heads[|proofs|].root == RootOf(h, leaves)
    requires shown.size == heads[i].size && InclusionVerdict(h, shown, leaf, heads[i].root) == Pass
    ensures (shown.index < |leaves| && leaves[shown.index] == leaf)
         || HasCollision(h, RunInputs(h, leaves, heads, proofs) + InclusionInputs(h, shown, leaf))
  {
    var run := RunInputs(h, leaves, heads, proofs);
    RunSound(h, leaves, heads, proofs, i);
    CollisionMonotonic(h, run, run + InclusionInputs(h, shown, leaf));
    if heads[i].size <= |leaves| && heads[i].root == RootOf(h, leaves[..heads[i].size]) {
      var known := leaves[..heads[i].size];
      InclusionSound(h, known, shown, leaf);
      assert TreeInputs(h, known) <= run;
      CollisionMonotonic(h, InclusionInputs(h, shown, leaf) + TreeInputs(h, known),
                         run + InclusionInputs(h, shown, leaf));
    }
  }
}
