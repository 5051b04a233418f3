/** Proofs byte by byte (crates/hide-transparency/src/lib.rs). */
module ProofRules {
  import opened Bytes
  import opened Hashing
  import opened MerkleProofs
  import opened ProofCodec
  import opened Results

  /** The 32 bytes at place `i` behind a head of 18. */
  function HashAt(s: Bytes, i: nat): Bytes {
    if |s| < 50 + 32 * i then [] else s[18 + 32 * i..50 + 32 * i]
  }

  /** A tag, two numbers, how many hashes there are, and the hashes. */
  predicate ProofForm(s: Bytes, tag: byte, first: u64, second: u64, path: seq<Digest>) {
    && |path| <= 64 && |s| == 18 + 32 * |path|
    && s[..18] == [tag] + U64(first) + U64(second) + [|path|]
    && forall i :: 0 <= i < |path| ==> HashAt(s, i) == path[i]
  }

  lemma LayoutIsForm(s: Bytes, tag: byte, first: u64, second: u64, path: seq<Digest>)
    ensures |path| <= MAX_PROOF_LEN && s == Layout(tag, first, second, path)
       <==> ProofForm(s, tag, first, second, path)
  {
    hide U64;
    if |path| <= MAX_PROOF_LEN {
      var layout := Layout(tag, first, second, path);
      assert layout[..18] == [tag] + U64(first) + U64(second) + [|path|];
      assert layout[18..] == PathBytes(path);
      forall i | 0 <= i < |path|
        ensures HashAt(layout, i) == path[i]
      {
        ChunksOfPath(path, i);
        assert HashAt(layout, i) == PathBytes(path)[32 * i..32 * i + 32];
      }
      if ProofForm(s, tag, first, second, path) {
        SameChunks(s, layout, |path|);
      }
    }
  }

  lemma SameChunks(s: Bytes, t: Bytes, n: nat)
    requires |s| == |t| == 18 + 32 * n && s[..18] == t[..18]
    requires forall i :: 0 <= i < n ==> HashAt(s, i) == HashAt(t, i)
    ensures s == t
  {
    forall j | 0 <= j < |s| ensures s[j] == t[j] {
      if j < 18 {
        assert s[..18][j] == t[..18][j];
      } else {
        var i, k := (j - 18) / 32, (j - 18) % 32;
        assert HashAt(s, i)[k] == HashAt(t, i)[k];
      }
    }
  }

  /** Bytes are read as a proof if and only if they are its form: tag 1 for inclusion, 2 for consistency. */
  lemma DecodedExactly(s: Bytes, inclusion: InclusionProof, consistency: ConsistencyProof)
    ensures DecodedInclusion(s) == Ok(inclusion)
       <==> ProofForm(s, 1, inclusion.index, inclusion.size, inclusion.path)
    ensures DecodedConsistency(s) == Ok(consistency)
       <==> ProofForm(s, 2, consistency.oldSize, consistency.newSize, consistency.path)
  {
    InclusionBytesExactly(inclusion, s);
    ConsistencyBytesExactly(consistency, s);
    LayoutIsForm(s, 1, inclusion.index, inclusion.size, inclusion.path);
    LayoutIsForm(s, 2, consistency.oldSize, consistency.newSize, consistency.path);
    hide DecodedInclusion, DecodedConsistency, Layout, ProofForm;
  }
}
