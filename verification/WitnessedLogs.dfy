/** What a quorum of witnesses and a consistency proof say together (crates/hide-transparency/src). */
module WitnessedLogs {
  import opened Bytes
  import opened Checkpoints
  import opened Hashing
  import opened MerkleProofs
  import opened MerkleTree
  import opened Results
  import opened Signing

  /** What is hashed to check that one log continues another. */
  ghost function ExtensionInputs(h: Hasher, proof: ConsistencyProof, oldRoot: Digest, entries: seq<Bytes>,
                                 longer: seq<Bytes>)
    : set<Bytes>
    requires proof.oldSize <= |longer|
  {
    ConsistencyInputs(h, proof, oldRoot) + LogInputs(h, entries) + LogInputs(h, longer)
    + LogInputs(h, longer[..proof.oldSize])
  }

  lemma LeavesOfPrefix(h: Hasher, entries: seq<Bytes>, k: nat)
    requires k <= |entries|
    ensures LeafHashes(h, entries)[..k] == LeafHashes(h, entries[..k])
  {
  }

  /** A proof to the root of a real log shows the entries behind the old root to be its first ones. */
  lemma ProvedPrefix(h: Hasher, entries: seq<Bytes>, longer: seq<Bytes>, proof: ConsistencyProof, oldRoot: Digest)
    requires proof.oldSize == |entries| && proof.newSize == |longer|
    requires oldRoot == RootOf(h, LeafHashes(h, entries))
    requires ConsistencyVerdict(h, proof, oldRoot, RootOf(h, LeafHashes(h, longer))) == Pass
    ensures |entries| <= |longer|
    ensures entries == longer[..|entries|] || HasCollision(h, ExtensionInputs(h, proof, oldRoot, entries, longer))
  {
    var leaves := LeafHashes(h, longer);
    ConsistencySound(h, leaves, proof, oldRoot);
    SizesInOrder(h, proof, oldRoot, RootOf(h, leaves));
    hide ConsistencyVerdict, RootOf, TreeInputs, LeafHashes, LogInputs, ConsistencyInputs, ConsistencyPath,
      HasCollision;
    LeavesOfPrefix(h, longer, |entries|);
    var all := ExtensionInputs(h, proof, oldRoot, entries, longer);
    TreeInLog(h, longer);
    CollisionMonotonic(h, ConsistencyInputs(h, proof, oldRoot) + TreeInputs(h, leaves), all);
    if oldRoot == RootOf(h, leaves[..|entries|]) {
      RootBinding(h, entries, longer[..|entries|]);
      CollisionMonotonic(h, LogInputs(h, entries) + LogInputs(h, longer[..|entries|]), all);
    }
  }

  lemma SizesInOrder(h: Hasher, proof: ConsistencyProof, oldRoot: Digest, newRoot: Digest)
    requires ConsistencyVerdict(h, proof, oldRoot, newRoot) == Pass
    ensures proof.oldSize <= proof.newSize
  {
  }

  lemma TreeInLog(h: Hasher, entries: seq<Bytes>)
    ensures TreeInputs(h, LeafHashes(h, entries)) <= LogInputs(h, entries)
  {
    hide TreeInputs;
  }

  /**
   Across sizes: whoever follows a log by a consistency proof from one witnessed checkpoint to another
   has seen the beginning of what anybody sees who holds a witnessed checkpoint of the later size, or
   two inputs hashed on the way collide.
   */
  lemma WitnessedLogsExtend(
      c: Crypto, s: Bytes, t: Bytes, s': Bytes, log: Witness, witnesses: seq<Witness>, threshold: nat,
      faulty: set<nat>, signed: seq<iset<Bytes>>, proof: ConsistencyProof, entries: seq<Bytes>, entries': seq<Bytes>)
    requires Witnessed(c, s, log, witnesses, threshold).Ok? && Witnessed(c, t, log, witnesses, threshold).Ok?
    requires Witnessed(c, s', log, witnesses, threshold).Ok?
    requires 2 * threshold > |witnesses| + |faulty| && |signed| == |witnesses|
    requires forall w :: 0 <= w < |witnesses| && w !in faulty ==> Honest(c, witnesses[w], signed[w])
    requires var first, next :=
      Witnessed(c, s, log, witnesses, threshold).value, Witnessed(c, t, log, witnesses, threshold).value;
             && first.size == |entries| && first.root == RootOf(c.hash, LeafHashes(c.hash, entries))
             && proof.oldSize == first.size && proof.newSize == next.size
             && ConsistencyVerdict(c.hash, proof, first.root, next.root) == Pass
             && next.size == |entries'|
    requires var other := Witnessed(c, s', log, witnesses, threshold).value;
             other.size == |entries'| && other.root == RootOf(c.hash, LeafHashes(c.hash, entries'))
    ensures |entries| <= |entries'|
    ensures entries == entries'[..|entries|]
         || HasCollision(c.hash,
                         ExtensionInputs(c.hash, proof, RootOf(c.hash, LeafHashes(c.hash, entries)), entries, entries'))
  {
    hide Witnessed, Honest, RootOf, LeafHashes, ExtensionInputs, HasCollision, ConsistencyVerdict;
    NoSplitView(c, t, s', log, witnesses, threshold, faulty, signed);
    var first := Witnessed(c, s, log, witnesses, threshold).value;
    ProvedPrefix(c.hash, entries, entries', proof, first.root);
  }
}
