/**
 Proofs, the verifier that checks them and the log that makes them
 (crates/hide-transparency/src/lib.rs). The verifier's loops are proved against `Fold`, and `Fold`
 is tied to the tree: honest proofs pass, and whatever passes is the honest proof.
 */
module MerkleProofs {
  import opened Bytes
  import opened Hashing
  import opened MerkleTree
  import opened Results

  const MAX_PROOF_LEN := 64

  datatype LogError =
    | OutOfRange(index: nat, size: nat)
    | NotAPrefix(first: nat, second: nat)
    | BadProof
    | ProofTooLong(length: nat)
    | Malformed

  datatype InclusionProof = InclusionProof(index: u64, size: u64, path: seq<Digest>)

  datatype ConsistencyProof = ConsistencyProof(oldSize: u64, newSize: u64, path: seq<Digest>)

  // ---------------------------------------------------------------- what a verifier decides

  ghost function InclusionVerdict(h: Hasher, proof: InclusionProof, leaf: Digest, root: Digest): Outcome<LogError> {
    if |proof.path| > MAX_PROOF_LEN then Fail(ProofTooLong(|proof.path|))
    else if proof.index >= proof.size then Fail(OutOfRange(proof.index, proof.size))
    else
      var turns := InclusionTurns(proof.index, proof.size);
      if |turns| == |proof.path| && Fold(h, turns, leaf, proof.path) == root then Pass
      else Fail(BadProof)
  }

  /** How many hashes a consistency proof between two sizes holds. */
  ghost function ConsistencyLength(oldSize: nat, newSize: nat): nat
    requires 0 < oldSize <= newSize
  {
    var turns := ConsistencyTurns(oldSize, newSize);
    |turns| + if AllLeft(turns) then 0 else 1
  }

  /** The fold's starting hash: the old root when it is a subtree of the new one, else sent along. */
  ghost function SeedOf(proof: ConsistencyProof, oldRoot: Digest): Digest
    requires 0 < proof.oldSize <= proof.newSize
    requires |proof.path| == ConsistencyLength(proof.oldSize, proof.newSize)
  {
    if AllLeft(ConsistencyTurns(proof.oldSize, proof.newSize)) then oldRoot else proof.path[0]
  }

  ghost function SiblingsOf(proof: ConsistencyProof): (path: seq<Digest>)
    requires 0 < proof.oldSize <= proof.newSize
    requires |proof.path| == ConsistencyLength(proof.oldSize, proof.newSize)
    ensures |path| == |ConsistencyTurns(proof.oldSize, proof.newSize)|
  {
    if AllLeft(ConsistencyTurns(proof.oldSize, proof.newSize)) then proof.path else proof.path[1..]
  }

  ghost function ConsistencyVerdict(h: Hasher, proof: ConsistencyProof, oldRoot: Digest, newRoot: Digest)
    : Outcome<LogError>
  {
    if |proof.path| > MAX_PROOF_LEN then Fail(ProofTooLong(|proof.path|))
    else if proof.oldSize == 0 || proof.oldSize > proof.newSize then Fail(NotAPrefix(proof.oldSize, proof.newSize))
    else if proof.oldSize == proof.newSize then
      if proof.path == [] && oldRoot == newRoot then Pass else Fail(BadProof)
    else if |proof.path| != ConsistencyLength(proof.oldSize, proof.newSize) then Fail(BadProof)
    else
      var turns := ConsistencyTurns(proof.oldSize, proof.newSize);
      var seed, path := SeedOf(proof, oldRoot), SiblingsOf(proof);
      if OldFold(h, turns, seed, path) == oldRoot && Fold(h, turns, seed, path) == newRoot then Pass
      else Fail(BadProof)
  }

  // ---------------------------------------------------------------- the verifier's loops

  method VerifyInclusion(h: Hasher, proof: InclusionProof, leaf: Digest, root: Digest)
    returns (outcome: Outcome<LogError>)
    ensures outcome == InclusionVerdict(h, proof, leaf, root)
  {
    if |proof.path| > MAX_PROOF_LEN {
      return Fail(ProofTooLong(|proof.path|));
    }
    if proof.index >= proof.size {
      return Fail(OutOfRange(proof.index, proof.size));
    }
    var turns := DescendToLeaf(proof.index, proof.size);
    if |turns| != |proof.path| {
      return Fail(BadProof);
    }
    var hash := FoldUp(h, turns, leaf, proof.path);
    if hash != root {
      return Fail(BadProof);
    }
    return Pass;
  }

  /** The inclusion check's first loop: descend to the leaf, recording each turn. */
  method DescendToLeaf(start: nat, total: nat) returns (turns: seq<bool>)
    requires start < total
    ensures turns == InclusionTurns(start, total)
  {
    hide *;
    turns := [];
    var index, size := start, total;
    while size > 1
      invariant 0 <= index < size
      invariant turns + InclusionTurns(index, size) == InclusionTurns(start, total)
      decreases size
    {
      var split := LargestPowerOfTwoBelow(size);
      InclusionTurnsStep(index, size);
      if index < split {
        AppendMoves(turns, true, InclusionTurns(index, split));
        turns := turns + [true];
        size := split;
      } else {
        AppendMoves(turns, false, InclusionTurns(index - split, size - split));
        turns := turns + [false];
        index := index - split;
        size := size - split;
      }
    }
    InclusionTurnsStep(index, size);
  }

  lemma InclusionTurnsStep(index: nat, size: nat)
    requires index < size
    ensures size == 1 ==> InclusionTurns(index, size) == []
    ensures size > 1 ==>
              var split := LargestPowerOfTwoBelow(size);
              InclusionTurns(index, size)
              == if index < split then [true] + InclusionTurns(index, split)
                 else [false] + InclusionTurns(index - split, size - split)
  {
  }

  /** The inclusion check's second loop: fold the path back up, consuming the turns in reverse. */
  method FoldUp(h: Hasher, turns: seq<bool>, leaf: Digest, path: seq<Digest>) returns (hash: Digest)
    requires |path| == |turns|
    ensures hash == Fold(h, turns, leaf, path)
  {
    hash := leaf;
    for k := 0 to |path|
      invariant hash == Fold(h, turns[|turns| - k..], leaf, path[..k])
    {
      var sibling, wentLeft := path[k], turns[|turns| - 1 - k];
      FoldLast(h, turns, leaf, path, k);
      hash := if wentLeft then NodeHash(h, hash, sibling) else NodeHash(h, sibling, hash);
    }
    assert turns[0..] == turns && path[..|path|] == path;
  }

  /** What one more element of the path adds to a partial fold. */
  lemma FoldLast(h: Hasher, turns: seq<bool>, start: Digest, path: seq<Digest>, k: nat)
    requires k < |path| == |turns|
    ensures var sibling, wentLeft := path[k], turns[|turns| - 1 - k];
            var above, taken := turns[|turns| - (k + 1)..], path[..k + 1];
            var below := OldFold(h, turns[|turns| - k..], start, path[..k]);
            && Fold(h, above, start, taken)
               == h(JoinInput(wentLeft, Fold(h, turns[|turns| - k..], start, path[..k]), sibling))
            && OldFold(h, above, start, taken)
               == if wentLeft then below else h(JoinInput(false, below, sibling))
  {
    FoldStep(h, turns[|turns| - 1 - k], turns[|turns| - k..], start, path[..k], path[k]);
    assert turns[|turns| - (k + 1)..] == [turns[|turns| - 1 - k]] + turns[|turns| - k..];
    assert path[..k + 1] == path[..k] + [path[k]];
  }

  method VerifyConsistency(h: Hasher, proof: ConsistencyProof, oldRoot: Digest, newRoot: Digest)
    returns (outcome: Outcome<LogError>)
    ensures outcome == ConsistencyVerdict(h, proof, oldRoot, newRoot)
  {
    if |proof.path| > MAX_PROOF_LEN {
      return Fail(ProofTooLong(|proof.path|));
    }
    if proof.oldSize == 0 || proof.oldSize > proof.newSize {
      return Fail(NotAPrefix(proof.oldSize, proof.newSize));
    }
    if proof.oldSize == proof.newSize {
      return if proof.path == [] && oldRoot == newRoot then Pass else Fail(BadProof);
    }
    var turns, complete := Descend(proof.oldSize, proof.newSize);
    var expected := |turns| + if complete then 0 else 1;
    if |proof.path| != expected {
      return Fail(BadProof);
    }
    var path := proof.path;
    var seed := oldRoot;
    if !complete {
      seed := path[0];
      path := path[1..];
    }
    var oldHash, newHash := FoldBoth(h, turns, seed, path);
    if oldHash != oldRoot || newHash != newRoot {
      return Fail(BadProof);
    }
    return Pass;
  }

  /** The consistency check's second loop: a left turn extends only the new accumulator. */
  method FoldBoth(h: Hasher, turns: seq<bool>, seed: Digest, path: seq<Digest>)
    returns (oldHash: Digest, newHash: Digest)
    requires |path| == |turns|
    ensures newHash == Fold(h, turns, seed, path)
    ensures oldHash == OldFold(h, turns, seed, path)
  {
    oldHash, newHash := seed, seed;
    for k := 0 to |path|
      invariant newHash == Fold(h, turns[|turns| - k..], seed, path[..k])
      invariant oldHash == OldFold(h, turns[|turns| - k..], seed, path[..k])
    {
      var sibling := path[k];
      FoldLast(h, turns, seed, path, k);
      if turns[|turns| - 1 - k] {
        newHash := NodeHash(h, newHash, sibling);
      } else {
        oldHash := NodeHash(h, sibling, oldHash);
        newHash := NodeHash(h, sibling, newHash);
      }
    }
    assert turns[0..] == turns && path[..|path|] == path;
  }

  /** The consistency check's first loop: walk down, recording each turn. */
  method Descend(oldStart: nat, newStart: nat) returns (turns: seq<bool>, complete: bool)
    requires 0 < oldStart <= newStart
    ensures turns == ConsistencyTurns(oldStart, newStart)
    ensures complete <==> AllLeft(turns)
  {
    turns, complete := [], true;
    assert AllLeft(turns);
    hide *;
    var oldSize, newSize := oldStart, newStart;
    while oldSize != newSize
      invariant 0 < oldSize <= newSize
      invariant turns + ConsistencyTurns(oldSize, newSize) == ConsistencyTurns(oldStart, newStart)
      invariant complete <==> AllLeft(turns)
      decreases newSize
    {
      var split := LargestPowerOfTwoBelow(newSize);
      ConsistencyTurnsStep(oldSize, newSize);
      if oldSize <= split {
        AppendMoves(turns, true, ConsistencyTurns(oldSize, split));
        AllLeftAppend(turns, true);
        turns := turns + [true];
        newSize := split;
      } else {
        AppendMoves(turns, false, ConsistencyTurns(oldSize - split, newSize - split));
        AllLeftAppend(turns, false);
        turns := turns + [false];
        oldSize, newSize := oldSize - split, newSize - split;
        complete := false;
      }
    }
    ConsistencyTurnsStep(oldSize, newSize);
  }

  lemma ConsistencyTurnsStep(oldSize: nat, newSize: nat)
    requires 0 < oldSize <= newSize
    ensures oldSize == newSize ==> ConsistencyTurns(oldSize, newSize) == []
    ensures oldSize < newSize ==>
              var split := LargestPowerOfTwoBelow(newSize);
              ConsistencyTurns(oldSize, newSize)
              == if oldSize <= split then [true] + ConsistencyTurns(oldSize, split)
                 else [false] + ConsistencyTurns(oldSize - split, newSize - split)
  {
  }

  // ---------------------------------------------------------------- completeness

  /** The log's own audit path passes for every index of every u64 size. */
  lemma InclusionComplete(h: Hasher, leaves: seq<Digest>, index: nat)
    requires index < |leaves| < 0x1_0000_0000_0000_0000
    ensures var proof := InclusionProof(index, |leaves|, InclusionPath(h, leaves, index));
            && |proof.path| <= MAX_PROOF_LEN
            && InclusionVerdict(h, proof, leaves[index], RootOf(h, leaves)) == Pass
  {
    Pow2Of64();
    InclusionTurnsBound(index, |leaves|, 64);
    HonestInclusion(h, leaves, index);
  }

  /** For one honest proof, acceptance is a question of its length alone. */
  lemma ConsistencyHonest(h: Hasher, leaves: seq<Digest>, oldSize: nat)
    requires 0 < oldSize <= |leaves| < 0x1_0000_0000_0000_0000
    ensures var proof := ConsistencyProof(oldSize, |leaves|, ConsistencyPath(h, leaves, oldSize, true));
            && |proof.path| == ConsistencyLength(oldSize, |leaves|)
            && SiblingsOf(proof) == ConsistencySiblings(h, leaves, oldSize)
            && SeedOf(proof, RootOf(h, leaves[..oldSize])) == ConsistencySeed(h, leaves, oldSize)
            && ConsistencyVerdict(h, proof, RootOf(h, leaves[..oldSize]), RootOf(h, leaves))
               == if |proof.path| <= MAX_PROOF_LEN then Pass else Fail(ProofTooLong(|proof.path|))
  {
    ConsistencyPathShape(h, leaves, oldSize, true);
    HonestConsistencyNew(h, leaves, oldSize);
    HonestConsistencyOld(h, leaves, oldSize);
    assert oldSize == |leaves| ==> leaves[..oldSize] == leaves;
    hide Fold, OldFold, RootOf, ConsistencySeed, ConsistencySiblings, ConsistencyPath;
  }

  /** Powers of two above one are even, so only a leaf-sized split is odd. */
  lemma SplitParity(n: nat)
    requires n > 1
    ensures LargestPowerOfTwoBelow(n) % 2 == 0 || n == 2
  {
    var j := ILog2(n - 1);
    ILog2Bounds(n - 1);
    if j == 0 {
      assert n == 2;
    }
  }

  /** The consistency descent goes all the way to a leaf exactly when the old size is odd. */
  lemma {:induction false} DescentReachesLeaf(oldSize: nat, newSize: nat)
    requires 0 < oldSize < newSize
    ensures |ConsistencyTurns(oldSize, newSize)| == |InclusionTurns(oldSize - 1, newSize)| <==> oldSize % 2 == 1
    ensures oldSize % 2 == 1 ==> (AllLeft(ConsistencyTurns(oldSize, newSize)) <==> oldSize == 1)
    decreases newSize
  {
    var split := LargestPowerOfTwoBelow(newSize);
    if oldSize < split {
      DescentReachesLeaf(oldSize, split);
      AllLeftStep(true, ConsistencyTurns(oldSize, split));
    } else if oldSize == split {
      AllLeftStep(true, ConsistencyTurns(oldSize, split));
      if newSize > 2 {
        SplitParity(newSize);
        assert |InclusionTurns(split - 1, split)| > 0;
      }
    } else {
      SplitParity(newSize);
      DescentReachesLeaf(oldSize - split, newSize - split);
      AllLeftStep(false, ConsistencyTurns(oldSize - split, newSize - split));
    }
  }

  lemma ConsistencyLengthExactly(oldSize: nat, newSize: nat)
    requires 0 < oldSize < newSize < 0x1_0000_0000_0000_0000
    ensures ConsistencyLength(oldSize, newSize) <= 65
    ensures ConsistencyLength(oldSize, newSize) == 65
        <==> oldSize % 2 == 1 && oldSize > 1 && |InclusionTurns(oldSize - 1, newSize)| == 64
  {
    Pow2Of64();
    InclusionTurnsBound(oldSize - 1, newSize, 64);
    ConsistencyTurnsPrefix(oldSize, newSize);
    DescentReachesLeaf(oldSize, newSize);
  }

  /**
   The log's own consistency proof passes exactly when it holds at most 64 hashes, and it holds
   more (65) exactly when the old size is odd, above one, and its last leaf lies 64 levels deep.
   */
  lemma ConsistencyCompleteExactly(h: Hasher, leaves: seq<Digest>, oldSize: nat)
    requires 0 < oldSize < |leaves| < 0x1_0000_0000_0000_0000
    ensures var proof := ConsistencyProof(oldSize, |leaves|, ConsistencyPath(h, leaves, oldSize, true));
            var verdict := ConsistencyVerdict(h, proof, RootOf(h, leaves[..oldSize]), RootOf(h, leaves));
            if oldSize % 2 == 1 && oldSize > 1 && |InclusionTurns(oldSize - 1, |leaves|)| == 64
            then verdict == Fail(ProofTooLong(65))
            else verdict == Pass
  {
    ConsistencyHonest(h, leaves, oldSize);
    ConsistencyLengthExactly(oldSize, |leaves|);
    hide *;
  }

  /** Every consistency proof between sizes up to 2^63 passes. */
  lemma ConsistencyComplete(h: Hasher, leaves: seq<Digest>, oldSize: nat)
    requires 0 < oldSize <= |leaves| <= 0x8000_0000_0000_0000
    ensures var proof := ConsistencyProof(oldSize, |leaves|, ConsistencyPath(h, leaves, oldSize, true));
            ConsistencyVerdict(h, proof, RootOf(h, leaves[..oldSize]), RootOf(h, leaves)) == Pass
  {
    Pow2Of64();
    InclusionTurnsBound(oldSize - 1, |leaves|, 63);
    ConsistencyHonest(h, leaves, oldSize);
    ConsistencyTurnsPrefix(oldSize, |leaves|);
  }

  lemma {:induction false} PerfectDepth(index: nat, k: nat)
    requires index < Pow2(k)
    ensures |InclusionTurns(index, Pow2(k))| == k
    decreases k
  {
    if k > 0 {
      SplitUnique(Pow2(k), k - 1);
      if index < Pow2(k - 1) {
        PerfectDepth(index, k - 1);
      } else {
        PerfectDepth(index - Pow2(k - 1), k - 1);
      }
    }
  }

  /** The limit does bite above 2^63: a log of 2^63 + 1 leaves cannot prove its state at size 3. */
  lemma ConsistencyTooLong(h: Hasher, leaves: seq<Digest>)
    requires |leaves| == 0x8000_0000_0000_0001
    ensures var proof := ConsistencyProof(3, |leaves|, ConsistencyPath(h, leaves, 3, true));
            ConsistencyVerdict(h, proof, RootOf(h, leaves[..3]), RootOf(h, leaves)) == Fail(ProofTooLong(65))
  {
    Pow2Of64();
    SplitUnique(|leaves|, 63);
    PerfectDepth(2, 63);
    ConsistencyCompleteExactly(h, leaves, 3);
  }

  // ---------------------------------------------------------------- soundness

  /** Every input the verifier hashes while it accepts an inclusion proof. */
  ghost function InclusionInputs(h: Hasher, proof: InclusionProof, leaf: Digest): set<Bytes> {
    if proof.index < proof.size && |InclusionTurns(proof.index, proof.size)| == |proof.path|
    then FoldInputs(h, InclusionTurns(proof.index, proof.size), leaf, proof.path)
    else {}
  }

  /** Every input the verifier hashes into the new root of a consistency proof. */
  ghost function ConsistencyInputs(h: Hasher, proof: ConsistencyProof, oldRoot: Digest): set<Bytes> {
    if 0 < proof.oldSize <= proof.newSize && |proof.path| == ConsistencyLength(proof.oldSize, proof.newSize)
    then FoldInputs(h, ConsistencyTurns(proof.oldSize, proof.newSize), SeedOf(proof, oldRoot), SiblingsOf(proof))
    else {}
  }

  /** Two accepted proofs of one position under one root show one leaf by one path. */
  lemma InclusionUnique(h: Hasher, a: InclusionProof, x: Digest, b: InclusionProof, y: Digest, root: Digest)
    requires a.index == b.index && a.size == b.size
    requires InclusionVerdict(h, a, x, root) == Pass
    requires InclusionVerdict(h, b, y, root) == Pass
    ensures (a == b && x == y) || HasCollision(h, InclusionInputs(h, a, x) + InclusionInputs(h, b, y))
  {
    FoldInjective(h, InclusionTurns(a.index, a.size), x, a.path, y, b.path);
  }

  /** An accepted inclusion proof shows the log's own leaf, by the log's own path. */
  lemma InclusionSound(h: Hasher, leaves: seq<Digest>, proof: InclusionProof, leaf: Digest)
    requires proof.size == |leaves|
    requires InclusionVerdict(h, proof, leaf, RootOf(h, leaves)) == Pass
    ensures (&& leaf == leaves[proof.index]
             && proof.path == InclusionPath(h, leaves, proof.index))
         || HasCollision(h, InclusionInputs(h, proof, leaf) + TreeInputs(h, leaves))
  {
    var honest := InclusionProof(proof.index, proof.size, InclusionPath(h, leaves, proof.index));
    InclusionComplete(h, leaves, proof.index);
    HonestInclusion(h, leaves, proof.index);
    InclusionUnique(h, proof, leaf, honest, leaves[proof.index], RootOf(h, leaves));
    hide *;
    UnionMonotonic(h, InclusionInputs(h, proof, leaf), InclusionInputs(h, proof, leaf),
                   InclusionInputs(h, honest, leaves[proof.index]), TreeInputs(h, leaves));
  }

  /** In terms of entries: what an accepted proof names is the entry at that index. */
  lemma EntrySound(h: Hasher, entries: seq<Bytes>, proof: InclusionProof, data: Bytes)
    requires proof.size == |entries|
    requires InclusionVerdict(h, proof, LeafHash(h, data), RootOf(h, LeafHashes(h, entries))) == Pass
    ensures data == entries[proof.index]
         || HasCollision(h, InclusionInputs(h, proof, LeafHash(h, data)) + {LeafInput(data)} + LogInputs(h, entries))
  {
    var leaves := LeafHashes(h, entries);
    var inputs := InclusionInputs(h, proof, LeafHash(h, data)) + {LeafInput(data)} + LogInputs(h, entries);
    InclusionSound(h, leaves, proof, LeafHash(h, data));
    CollisionMonotonic(h, InclusionInputs(h, proof, LeafHash(h, data)) + TreeInputs(h, leaves), inputs);
    if LeafHash(h, data) == leaves[proof.index] {
      assert LeafInput(entries[proof.index]) in LeafInputs(entries);
      EqualDigests(h, inputs, LeafInput(data), LeafInput(entries[proof.index]));
      if LeafInput(data) == LeafInput(entries[proof.index]) {
        SplitEqual([LEAF_PREFIX], data, [LEAF_PREFIX], entries[proof.index]);
      }
    }
  }

  /** Two accepted proofs between the same sizes that reach one new root leave one old root. */
  lemma ConsistencyUnique(h: Hasher, a: ConsistencyProof, x: Digest, b: ConsistencyProof, y: Digest, root: Digest)
    requires a.oldSize == b.oldSize && a.newSize == b.newSize
    requires ConsistencyVerdict(h, a, x, root) == Pass
    requires ConsistencyVerdict(h, b, y, root) == Pass
    ensures (a == b && x == y) || HasCollision(h, ConsistencyInputs(h, a, x) + ConsistencyInputs(h, b, y))
  {
    if a.oldSize < a.newSize {
      FoldInjective(h, ConsistencyTurns(a.oldSize, a.newSize), SeedOf(a, x), SiblingsOf(a), SeedOf(b, y),
                    SiblingsOf(b));
      if SeedOf(a, x) == SeedOf(b, y) && SiblingsOf(a) == SiblingsOf(b) {
        hide Fold, OldFold, ConsistencyTurns;
        if !AllLeft(ConsistencyTurns(a.oldSize, a.newSize)) {
          assert a.path == [a.path[0]] + SiblingsOf(a);
          assert b.path == [b.path[0]] + SiblingsOf(b);
        }
      }
    }
  }

  /**
   An accepted consistency proof against the root of a log means the old root was the root of that
   log's first `oldSize` leaves, and that the proof is the one the log itself would have given.
   */
  lemma ConsistencySound(h: Hasher, leaves: seq<Digest>, proof: ConsistencyProof, oldRoot: Digest)
    requires proof.newSize == |leaves|
    requires ConsistencyVerdict(h, proof, oldRoot, RootOf(h, leaves)) == Pass
    ensures (&& 0 < proof.oldSize <= |leaves|
             && oldRoot == RootOf(h, leaves[..proof.oldSize])
             && proof.path == ConsistencyPath(h, leaves, proof.oldSize, true))
         || HasCollision(h, ConsistencyInputs(h, proof, oldRoot) + TreeInputs(h, leaves))
  {
    var k := proof.oldSize;
    var honest := ConsistencyProof(k, |leaves|, ConsistencyPath(h, leaves, k, true));
    var honestRoot := RootOf(h, leaves[..k]);
    ConsistencyHonest(h, leaves, k);
    assert k == |leaves| ==> leaves[..k] == leaves;
    if k < |leaves| {
      assert |proof.path| == |honest.path|;
      HonestConsistencyNew(h, leaves, k);
      ConsistencyUnique(h, proof, oldRoot, honest, honestRoot, RootOf(h, leaves));
      assert ConsistencyInputs(h, honest, honestRoot) <= TreeInputs(h, leaves);
      hide *;
      UnionMonotonic(h, ConsistencyInputs(h, proof, oldRoot), ConsistencyInputs(h, proof, oldRoot),
                     ConsistencyInputs(h, honest, honestRoot), TreeInputs(h, leaves));
    }
  }
}
