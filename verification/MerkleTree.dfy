/**
 The RFC 6962 Merkle tree of crates/hide-transparency/src/lib.rs: its shape, the proofs the log
 derives from its leaves, and what a verifier's fold of a proof commits to.
 */
module MerkleTree {
  import opened Bytes
  import opened Hashing

  const LEAF_PREFIX: byte := 0x00
  const NODE_PREFIX: byte := 0x01

  function LeafInput(data: Bytes): Bytes {
    [LEAF_PREFIX] + data
  }

  function NodeInput(left: Digest, right: Digest): Bytes {
    [NODE_PREFIX] + left + right
  }

  function LeafHash(h: Hasher, data: Bytes): Digest {
    h(LeafInput(data))
  }

  function NodeHash(h: Hasher, left: Digest, right: Digest): Digest {
    h(NodeInput(left, right))
  }

  lemma NodeInputInjective(a: Digest, b: Digest, c: Digest, d: Digest)
    requires NodeInput(a, b) == NodeInput(c, d)
    ensures a == c && b == d
  {
    SplitEqual([NODE_PREFIX] + a, b, [NODE_PREFIX] + c, d);
    SplitEqual([NODE_PREFIX], a, [NODE_PREFIX], c);
  }

  // ---------------------------------------------------------------- shape

  function Pow2(k: nat): (p: nat)
    ensures p > 0
  {
    if k == 0 then 1 else 2 * Pow2(k - 1)
  }

  function ILog2(n: nat): nat
    requires n > 0
  {
    if n == 1 then 0 else 1 + ILog2(n / 2)
  }

  lemma {:induction false} ILog2Bounds(n: nat)
    requires n > 0
    ensures Pow2(ILog2(n)) <= n < 2 * Pow2(ILog2(n))
  {
    if n > 1 {
      ILog2Bounds(n / 2);
    }
  }

  lemma {:induction false} Pow2Monotonic(j: nat, k: nat)
    requires j <= k
    ensures Pow2(j) <= Pow2(k)
    decreases k
  {
    if j < k {
      Pow2Monotonic(j, k - 1);
    }
  }

  /** Where a tree of `n` leaves splits, by shifting as the code does. */
  function LargestPowerOfTwoBelow(n: nat): (split: nat)
    requires n > 1
    ensures 0 < split < n <= 2 * split
  {
    ILog2Bounds(n - 1);
    Pow2(ILog2(n - 1))
  }

  /** The split is the one power of two below `n` that reaches at least half of `n`. */
  lemma SplitUnique(n: nat, k: nat)
    requires n > 1 && Pow2(k) < n <= 2 * Pow2(k)
    ensures LargestPowerOfTwoBelow(n) == Pow2(k)
  {
    var j := ILog2(n - 1);
    ILog2Bounds(n - 1);
    if j < k {
      Pow2Monotonic(j + 1, k);
    } else if k < j {
      Pow2Monotonic(k + 1, j);
    }
  }

  /** For every u64 size the shift amount stays below 64, so the shift cannot overflow. */
  lemma SplitFitsU64(n: u64)
    requires n > 1
    ensures ILog2(n - 1) < 64
  {
    ILog2Bounds(n - 1);
    Pow2Of64();
    if ILog2(n - 1) >= 64 {
      Pow2Monotonic(64, ILog2(n - 1));
    }
  }

  lemma Pow2Of64()
    ensures Pow2(63) == 0x8000_0000_0000_0000
    ensures Pow2(64) == 0x1_0000_0000_0000_0000
  {
    Pow2Of8();
    hide Pow2;
    Pow2Add(8, 8);
    Pow2Add(16, 16);
    Pow2Add(32, 32);
    Pow2Add(1, 63);
  }

  lemma Pow2Of8()
    ensures Pow2(1) == 2 && Pow2(8) == 256
  {
  }

  lemma {:induction false} Pow2Add(j: nat, k: nat)
    ensures Pow2(j + k) == Pow2(j) * Pow2(k)
  {
    if j > 0 {
      Pow2Add(j - 1, k);
      assert Pow2(j) * Pow2(k) == 2 * (Pow2(j - 1) * Pow2(k));
    }
  }

  /** A tree splits a power of two, and any tree at most that large, within that power. */
  lemma SplitWithin(n: nat, k: nat)
    requires 1 < n <= Pow2(k)
    ensures k > 0 && LargestPowerOfTwoBelow(n) <= Pow2(k - 1)
  {
    var j := ILog2(n - 1);
    ILog2Bounds(n - 1);
    if k <= j {
      Pow2Monotonic(k, j);
    } else {
      Pow2Monotonic(j, k - 1);
    }
  }

  // ---------------------------------------------------------------- the tree

  /** The Merkle tree hash of these leaf hashes (RFC 6962, section 2.1). */
  function RootOf(h: Hasher, leaves: seq<Digest>): Digest
    decreases |leaves|
  {
    if |leaves| == 0 then h([])
    else if |leaves| == 1 then leaves[0]
    else
      var split := LargestPowerOfTwoBelow(|leaves|);
      NodeHash(h, RootOf(h, leaves[..split]), RootOf(h, leaves[split..]))
  }

  /** Every node input hashed while computing `RootOf`. */
  ghost function TreeInputs(h: Hasher, leaves: seq<Digest>): set<Bytes>
    decreases |leaves|
  {
    if |leaves| == 0 then {[]}
    else if |leaves| == 1 then {}
    else
      var split := LargestPowerOfTwoBelow(|leaves|);
      {NodeInput(RootOf(h, leaves[..split]), RootOf(h, leaves[split..]))}
      + TreeInputs(h, leaves[..split]) + TreeInputs(h, leaves[split..])
  }

  lemma RootStep(h: Hasher, leaves: seq<Digest>)
    requires |leaves| > 1
    ensures var split := LargestPowerOfTwoBelow(|leaves|);
            var input := NodeInput(RootOf(h, leaves[..split]), RootOf(h, leaves[split..]));
            && RootOf(h, leaves) == h(input)
            && TreeInputs(h, leaves)
               == {input} + TreeInputs(h, leaves[..split]) + TreeInputs(h, leaves[split..])
  {
  }

  // ---------------------------------------------------------------- descents

  /** The descent from the root to one leaf: true for each step to the left. */
  function InclusionTurns(index: nat, size: nat): seq<bool>
    requires index < size
    decreases size
  {
    if size == 1 then []
    else
      var split := LargestPowerOfTwoBelow(size);
      if index < split then [true] + InclusionTurns(index, split)
      else [false] + InclusionTurns(index - split, size - split)
  }

  /** The descent to the subtree whose last leaf is the prior log's last leaf. */
  function ConsistencyTurns(prior: nat, size: nat): seq<bool>
    requires 0 < prior <= size
    decreases size
  {
    if prior == size then []
    else
      var split := LargestPowerOfTwoBelow(size);
      if prior <= split then [true] + ConsistencyTurns(prior, split)
      else [false] + ConsistencyTurns(prior - split, size - split)
  }

  predicate AllLeft(turns: seq<bool>) {
    forall i :: 0 <= i < |turns| ==> turns[i]
  }

  lemma {:induction false} InclusionTurnsBound(index: nat, size: nat, k: nat)
    requires index < size <= Pow2(k)
    ensures |InclusionTurns(index, size)| <= k
    decreases size
  {
    if size > 1 {
      var split := LargestPowerOfTwoBelow(size);
      SplitWithin(size, k);
      if index < split {
        InclusionTurnsBound(index, split, k - 1);
      } else {
        InclusionTurnsBound(index - split, size - split, k - 1);
      }
    }
  }

  /** A consistency descent is the start of the descent to the prior log's last leaf. */
  lemma {:induction false} ConsistencyTurnsPrefix(prior: nat, size: nat)
    requires 0 < prior <= size
    ensures ConsistencyTurns(prior, size) <= InclusionTurns(prior - 1, size)
    decreases size
  {
    if prior < size {
      var split := LargestPowerOfTwoBelow(size);
      if prior <= split {
        ConsistencyTurnsPrefix(prior, split);
      } else {
        ConsistencyTurnsPrefix(prior - split, size - split);
      }
    }
  }

  // ---------------------------------------------------------------- proofs

  /** The audit path, deepest sibling first (RFC 6962, section 2.1.1). */
  function InclusionPath(h: Hasher, leaves: seq<Digest>, index: nat): (path: seq<Digest>)
    requires index < |leaves|
    ensures |path| == |InclusionTurns(index, |leaves|)|
    decreases |leaves|
  {
    if |leaves| == 1 then []
    else
      var split := LargestPowerOfTwoBelow(|leaves|);
      if index < split
      then InclusionPath(h, leaves[..split], index) + [RootOf(h, leaves[split..])]
      else InclusionPath(h, leaves[split..], index - split) + [RootOf(h, leaves[..split])]
  }

  /** The consistency proof (RFC 6962, section 2.1.2) as the log emits it. */
  function ConsistencyPath(h: Hasher, leaves: seq<Digest>, prior: nat, complete: bool): seq<Digest>
    requires 0 < prior <= |leaves|
    decreases |leaves|
  {
    if prior == |leaves| then
      if complete then [] else [RootOf(h, leaves)]
    else
      var split := LargestPowerOfTwoBelow(|leaves|);
      if prior <= split
      then ConsistencyPath(h, leaves[..split], prior, complete) + [RootOf(h, leaves[split..])]
      else ConsistencyPath(h, leaves[split..], prior - split, false) + [RootOf(h, leaves[..split])]
  }

  /** The root of the subtree at which the consistency descent stops. */
  function ConsistencySeed(h: Hasher, leaves: seq<Digest>, prior: nat): Digest
    requires 0 < prior <= |leaves|
    decreases |leaves|
  {
    if prior == |leaves| then RootOf(h, leaves)
    else
      var split := LargestPowerOfTwoBelow(|leaves|);
      if prior <= split then ConsistencySeed(h, leaves[..split], prior)
      else ConsistencySeed(h, leaves[split..], prior - split)
  }

  /** The siblings along the consistency descent, deepest first. */
  function ConsistencySiblings(h: Hasher, leaves: seq<Digest>, prior: nat): (path: seq<Digest>)
    requires 0 < prior <= |leaves|
    ensures |path| == |ConsistencyTurns(prior, |leaves|)|
    decreases |leaves|
  {
    if prior == |leaves| then []
    else
      var split := LargestPowerOfTwoBelow(|leaves|);
      if prior <= split
      then ConsistencySiblings(h, leaves[..split], prior) + [RootOf(h, leaves[split..])]
      else ConsistencySiblings(h, leaves[split..], prior - split) + [RootOf(h, leaves[..split])]
  }

  lemma ConsistencyStep(h: Hasher, leaves: seq<Digest>, prior: nat)
    requires 0 < prior < |leaves|
    ensures var split := LargestPowerOfTwoBelow(|leaves|);
            var left, right := leaves[..split], leaves[split..];
            if prior <= split then
              && ConsistencyTurns(prior, |leaves|) == [true] + ConsistencyTurns(prior, split)
              && ConsistencySeed(h, leaves, prior) == ConsistencySeed(h, left, prior)
              && ConsistencySiblings(h, leaves, prior) == ConsistencySiblings(h, left, prior) + [RootOf(h, right)]
            else
              && ConsistencyTurns(prior, |leaves|) == [false] + ConsistencyTurns(prior - split, |right|)
              && ConsistencySeed(h, leaves, prior) == ConsistencySeed(h, right, prior - split)
              && ConsistencySiblings(h, leaves, prior)
                 == ConsistencySiblings(h, right, prior - split) + [RootOf(h, left)]
  {
  }

  /** The emitted proof is the siblings, after the seed unless the verifier already holds it. */
  lemma {:induction false} ConsistencyPathShape(h: Hasher, leaves: seq<Digest>, prior: nat, complete: bool)
    requires 0 < prior <= |leaves|
    ensures ConsistencyPath(h, leaves, prior, complete)
         == (if complete && AllLeft(ConsistencyTurns(prior, |leaves|)) then []
             else [ConsistencySeed(h, leaves, prior)])
            + ConsistencySiblings(h, leaves, prior)
    decreases |leaves|
  {
    hide RootOf, AllLeft, ConsistencyTurns, ConsistencySeed, ConsistencySiblings, LargestPowerOfTwoBelow;
    if prior == |leaves| {
      WholePathShape(h, leaves);
    } else {
      ConsistencyStep(h, leaves, prior);
      var split := LargestPowerOfTwoBelow(|leaves|);
      if prior <= split {
        ConsistencyPathShape(h, leaves[..split], prior, complete);
        AllLeftStep(true, ConsistencyTurns(prior, split));
      } else {
        ConsistencyPathShape(h, leaves[split..], prior - split, false);
        AllLeftStep(false, ConsistencyTurns(prior - split, |leaves| - split));
      }
    }
  }

  // ---------------------------------------------------------------- folds

  /** What is hashed when a subtree's hash meets its sibling after a step left or right. */
  function JoinInput(wentLeft: bool, below: Digest, sibling: Digest): Bytes {
    if wentLeft then NodeInput(below, sibling) else NodeInput(sibling, below)
  }

  lemma JoinInputInjective(wentLeft: bool, a: Digest, b: Digest, c: Digest, d: Digest)
    requires JoinInput(wentLeft, a, b) == JoinInput(wentLeft, c, d)
    ensures a == c && b == d
  {
    if wentLeft {
      NodeInputInjective(a, b, c, d);
    } else {
      NodeInputInjective(b, a, d, c);
    }
  }

  /** Rebuilds a root from a starting hash and its siblings, deepest first. */
  function Fold(h: Hasher, turns: seq<bool>, start: Digest, path: seq<Digest>): Digest
    requires |path| == |turns|
  {
    if turns == [] then start
    else h(JoinInput(turns[0], Fold(h, turns[1..], start, path[..|path| - 1]), path[|path| - 1]))
  }

  ghost function FoldInputs(h: Hasher, turns: seq<bool>, start: Digest, path: seq<Digest>): set<Bytes>
    requires |path| == |turns|
  {
    if turns == [] then {}
    else
      var below := path[..|path| - 1];
      FoldInputs(h, turns[1..], start, below)
      + {JoinInput(turns[0], Fold(h, turns[1..], start, below), path[|path| - 1])}
  }

  /** The old root a consistency proof rebuilds: only steps to the right contribute. */
  function OldFold(h: Hasher, turns: seq<bool>, start: Digest, path: seq<Digest>): Digest
    requires |path| == |turns|
  {
    if turns == [] then start
    else
      var below := OldFold(h, turns[1..], start, path[..|path| - 1]);
      if turns[0] then below else h(JoinInput(false, below, path[|path| - 1]))
  }

  /** One more level above a fold. */
  lemma FoldStep(h: Hasher, turn: bool, turns: seq<bool>, start: Digest, path: seq<Digest>, sibling: Digest)
    requires |path| == |turns|
    ensures var input := JoinInput(turn, Fold(h, turns, start, path), sibling);
            && Fold(h, [turn] + turns, start, path + [sibling]) == h(input)
            && FoldInputs(h, [turn] + turns, start, path + [sibling])
               == FoldInputs(h, turns, start, path) + {input}
    ensures var below := OldFold(h, turns, start, path);
            OldFold(h, [turn] + turns, start, path + [sibling])
            == if turn then below else h(JoinInput(false, below, sibling))
  {
    assert ([turn] + turns)[1..] == turns;
    assert (path + [sibling])[..|turns|] == path;
  }

  /** The last hash of a fold. */
  lemma FoldTop(h: Hasher, turns: seq<bool>, start: Digest, path: seq<Digest>)
    requires |path| == |turns| > 0
    ensures var below := path[..|path| - 1];
            var input := JoinInput(turns[0], Fold(h, turns[1..], start, below), path[|path| - 1]);
            && Fold(h, turns, start, path) == h(input)
            && FoldInputs(h, turns, start, path) == FoldInputs(h, turns[1..], start, below) + {input}
  {
  }

  /** A folded root commits to the start and to every sibling, for a given descent. */
  lemma {:induction false} FoldInjective(
      h: Hasher, turns: seq<bool>, s: Digest, p: seq<Digest>, s': Digest, p': seq<Digest>)
    requires |p| == |p'| == |turns|
    requires Fold(h, turns, s, p) == Fold(h, turns, s', p')
    ensures (s == s' && p == p')
         || HasCollision(h, FoldInputs(h, turns, s, p) + FoldInputs(h, turns, s', p'))
  {
    if turns == [] {
      assert Fold(h, turns, s, p) == s && Fold(h, turns, s', p') == s';
    } else {
      FoldTop(h, turns, s, p);
      FoldTop(h, turns, s', p');
      hide Fold, FoldInputs, JoinInput, HasCollision;
      var q, q' := p[..|p| - 1], p'[..|p'| - 1];
      var below, below' := Fold(h, turns[1..], s, q), Fold(h, turns[1..], s', q');
      var x, x' := JoinInput(turns[0], below, p[|q|]), JoinInput(turns[0], below', p'[|q'|]);
      var inputs := FoldInputs(h, turns, s, p) + FoldInputs(h, turns, s', p');
      EqualDigests(h, inputs, x, x');
      if x == x' {
        JoinInputInjective(turns[0], below, p[|q|], below', p'[|q'|]);
        FoldInjective(h, turns[1..], s, q, s', q');
        CollisionMonotonic(h, FoldInputs(h, turns[1..], s, q) + FoldInputs(h, turns[1..], s', q'), inputs);
        assert p == q + [p[|q|]] && p' == q' + [p'[|q'|]];
      }
    }
  }

  /** Folding the honest audit path rebuilds the root, hashing only what the tree hashes. */
  lemma {:induction false} HonestInclusion(h: Hasher, leaves: seq<Digest>, index: nat)
    requires index < |leaves|
    ensures Fold(h, InclusionTurns(index, |leaves|), leaves[index], InclusionPath(h, leaves, index))
         == RootOf(h, leaves)
    ensures FoldInputs(h, InclusionTurns(index, |leaves|), leaves[index], InclusionPath(h, leaves, index))
         <= TreeInputs(h, leaves)
    decreases |leaves|
  {
    if |leaves| > 1 {
      RootStep(h, leaves);
      hide Fold, FoldInputs, RootOf, TreeInputs, LargestPowerOfTwoBelow;
      var split := LargestPowerOfTwoBelow(|leaves|);
      var left, right := leaves[..split], leaves[split..];
      if index < split {
        HonestInclusion(h, left, index);
        FoldStep(h, true, InclusionTurns(index, split), left[index],
                 InclusionPath(h, left, index), RootOf(h, right));
      } else {
        HonestInclusion(h, right, index - split);
        FoldStep(h, false, InclusionTurns(index - split, |right|), right[index - split],
                 InclusionPath(h, right, index - split), RootOf(h, left));
      }
    }
  }

  /** Folding the honest consistency proof rebuilds the new root, hashing only what the tree hashes. */
  lemma {:induction false} HonestConsistencyNew(h: Hasher, leaves: seq<Digest>, prior: nat)
    requires 0 < prior <= |leaves|
    ensures var turns := ConsistencyTurns(prior, |leaves|);
            var seed := ConsistencySeed(h, leaves, prior);
            var path := ConsistencySiblings(h, leaves, prior);
            && Fold(h, turns, seed, path) == RootOf(h, leaves)
            && FoldInputs(h, turns, seed, path) <= TreeInputs(h, leaves)
    decreases |leaves|
  {
    if prior == |leaves| {
      assert leaves[..prior] == leaves;
    } else {
      RootStep(h, leaves);
      ConsistencyStep(h, leaves, prior);
      hide *;
      var split := LargestPowerOfTwoBelow(|leaves|);
      var left, right := leaves[..split], leaves[split..];
      if prior <= split {
        HonestConsistencyNew(h, left, prior);
        FoldStep(h, true, ConsistencyTurns(prior, split), ConsistencySeed(h, left, prior),
                 ConsistencySiblings(h, left, prior), RootOf(h, right));
      } else {
        HonestConsistencyNew(h, right, prior - split);
        FoldStep(h, false, ConsistencyTurns(prior - split, |right|), ConsistencySeed(h, right, prior - split),
                 ConsistencySiblings(h, right, prior - split), RootOf(h, left));
      }
    }
  }

  /** The same proof's right-hand steps rebuild the old root; a descent with none starts from it. */
  lemma {:induction false} HonestConsistencyOld(h: Hasher, leaves: seq<Digest>, prior: nat)
    requires 0 < prior <= |leaves|
    ensures var turns := ConsistencyTurns(prior, |leaves|);
            var seed := ConsistencySeed(h, leaves, prior);
            && OldFold(h, turns, seed, ConsistencySiblings(h, leaves, prior)) == RootOf(h, leaves[..prior])
            && (AllLeft(turns) ==> seed == RootOf(h, leaves[..prior]))
    decreases |leaves|
  {
    if prior == |leaves| {
      assert leaves[..prior] == leaves;
    } else {
      ConsistencyStep(h, leaves, prior);
      hide *;
      var split := LargestPowerOfTwoBelow(|leaves|);
      var left, right := leaves[..split], leaves[split..];
      if prior <= split {
        var turns := ConsistencyTurns(prior, split);
        HonestConsistencyOld(h, left, prior);
        FoldStep(h, true, turns, ConsistencySeed(h, left, prior), ConsistencySiblings(h, left, prior),
                 RootOf(h, right));
        AllLeftStep(true, turns);
        assert left[..prior] == leaves[..prior];
      } else {
        var turns := ConsistencyTurns(prior - split, |right|);
        HonestConsistencyOld(h, right, prior - split);
        FoldStep(h, false, turns, ConsistencySeed(h, right, prior - split),
                 ConsistencySiblings(h, right, prior - split), RootOf(h, left));
        AllLeftStep(false, turns);
        PrefixRoot(h, leaves, prior);
      }
    }
  }

  lemma WholePathShape(h: Hasher, leaves: seq<Digest>)
    requires leaves != []
    ensures AllLeft(ConsistencyTurns(|leaves|, |leaves|))
    ensures ConsistencySeed(h, leaves, |leaves|) == RootOf(h, leaves) && ConsistencySiblings(h, leaves, |leaves|) == []
  {
  }

  lemma AllLeftStep(turn: bool, turns: seq<bool>)
    ensures AllLeft([turn] + turns) <==> turn && AllLeft(turns)
  {
    assert forall i :: 0 <= i < |turns| ==> turns[i] == ([turn] + turns)[i + 1];
    assert ([turn] + turns)[0] == turn;
  }

  lemma AllLeftAppend(turns: seq<bool>, turn: bool)
    ensures AllLeft(turns + [turn]) <==> AllLeft(turns) && turn
  {
    assert forall i :: 0 <= i < |turns| ==> turns[i] == (turns + [turn])[i];
    assert (turns + [turn])[|turns|] == turn;
  }

  /** A prefix that reaches past the split point splits where the whole tree does. */
  lemma PrefixRoot(h: Hasher, leaves: seq<Digest>, prior: nat)
    requires |leaves| > 1 && LargestPowerOfTwoBelow(|leaves|) < prior <= |leaves|
    ensures var split := LargestPowerOfTwoBelow(|leaves|);
            RootOf(h, leaves[..prior])
            == h(JoinInput(false, RootOf(h, leaves[split..][..prior - split]), RootOf(h, leaves[..split])))
  {
    var split := LargestPowerOfTwoBelow(|leaves|);
    ILog2Bounds(|leaves| - 1);
    SplitUnique(prior, ILog2(|leaves| - 1));
    assert leaves[..prior][..split] == leaves[..split];
    assert leaves[..prior][split..] == leaves[split..][..prior - split];
  }

  // ---------------------------------------------------------------- what a root commits to

  function LeafHashes(h: Hasher, entries: seq<Bytes>): (leaves: seq<Digest>)
    ensures |leaves| == |entries|
  {
    seq(|entries|, i requires 0 <= i < |entries| => LeafHash(h, entries[i]))
  }

  predicate PowerOfTwo(k: nat) {
    k == 1 || (k > 1 && k % 2 == 0 && PowerOfTwo(k / 2))
  }

  lemma {:induction false} PowersOfTwo(k: nat) returns (j: nat)
    requires PowerOfTwo(k)
    ensures k == Pow2(j)
    decreases k
  {
    if k == 1 {
      j := 0;
    } else {
      j := PowersOfTwo(k / 2);
      j := j + 1;
    }
  }

  lemma {:induction false} Pow2IsPower(j: nat)
    ensures PowerOfTwo(Pow2(j))
  {
    if j > 0 {
      Pow2IsPower(j - 1);
    }
  }

  lemma SomePower(n: nat)
    requires n > 1
    ensures exists k: nat :: PowerOfTwo(k) && k < n <= 2 * k
  {
    ILog2Bounds(n - 1);
    Pow2IsPower(ILog2(n - 1));
    assert PowerOfTwo(Pow2(ILog2(n - 1)));
  }

  /** The Merkle tree hash of these entries, as RFC 6962 defines it in section 2.1. */
  ghost function TreeHash(h: Hasher, entries: seq<Bytes>): Digest
    decreases |entries|
  {
    if |entries| == 0 then h([])
    else if |entries| == 1 then h([0x00] + entries[0])
    else
      SomePower(|entries|);
      var k: nat :| PowerOfTwo(k) && k < |entries| <= 2 * k;
      h([0x01] + TreeHash(h, entries[..k]) + TreeHash(h, entries[k..]))
  }

  /**
   The tree hash of RFC 6962, section 2.1, over entries and in bytes: whatever power of two below the
   number of entries is at least half of it divides them.
   */
  lemma RootLaw(h: Hasher, entries: seq<Bytes>)
    ensures entries == [] ==> RootOf(h, LeafHashes(h, entries)) == h([])
    ensures |entries| == 1 ==> RootOf(h, LeafHashes(h, entries)) == h([0x00] + entries[0])
    ensures forall k: nat :: PowerOfTwo(k) && k < |entries| <= 2 * k ==>
              RootOf(h, LeafHashes(h, entries))
              == h([0x01] + RootOf(h, LeafHashes(h, entries[..k])) + RootOf(h, LeafHashes(h, entries[k..])))
  {
    forall k: nat | PowerOfTwo(k) && k < |entries| <= 2 * k
      ensures RootOf(h, LeafHashes(h, entries))
           == h([0x01] + RootOf(h, LeafHashes(h, entries[..k])) + RootOf(h, LeafHashes(h, entries[k..])))
    {
      var j := PowersOfTwo(k);
      SplitUnique(|entries|, j);
      assert LeafHashes(h, entries)[..k] == LeafHashes(h, entries[..k]);
      assert LeafHashes(h, entries)[k..] == LeafHashes(h, entries[k..]);
      RootStep(h, LeafHashes(h, entries));
    }
  }

  lemma {:induction false} RootIsTreeHash(h: Hasher, entries: seq<Bytes>)
    ensures RootOf(h, LeafHashes(h, entries)) == TreeHash(h, entries)
    decreases |entries|
  {
    RootLaw(h, entries);
    hide RootOf, LeafHashes;
    if |entries| > 1 {
      SomePower(|entries|);
      forall k: nat | PowerOfTwo(k) && k < |entries| <= 2 * k
        ensures RootOf(h, LeafHashes(h, entries))
             == h([0x01] + TreeHash(h, entries[..k]) + TreeHash(h, entries[k..]))
      {
        RootIsTreeHash(h, entries[..k]);
        RootIsTreeHash(h, entries[k..]);
      }
    }
  }

  ghost function LeafInputs(entries: seq<Bytes>): set<Bytes> {
    set i | 0 <= i < |entries| :: LeafInput(entries[i])
  }

  /** Every input hashed while computing the root of a log of these entries. */
  ghost function LogInputs(h: Hasher, entries: seq<Bytes>): set<Bytes> {
    LeafInputs(entries) + TreeInputs(h, LeafHashes(h, entries))
  }

  lemma LogInputsSplit(h: Hasher, entries: seq<Bytes>)
    requires |entries| > 1
    ensures var split := LargestPowerOfTwoBelow(|entries|);
            && LogInputs(h, entries[..split]) <= LogInputs(h, entries)
            && LogInputs(h, entries[split..]) <= LogInputs(h, entries)
            && LeafHashes(h, entries[..split]) == LeafHashes(h, entries)[..split]
            && LeafHashes(h, entries[split..]) == LeafHashes(h, entries)[split..]
  {
    var split := LargestPowerOfTwoBelow(|entries|);
    var left, right := entries[..split], entries[split..];
    assert LeafHashes(h, left) == LeafHashes(h, entries)[..split];
    assert LeafHashes(h, right) == LeafHashes(h, entries)[split..];
    forall x | x in LeafInputs(left) ensures x in LeafInputs(entries) {
      var i :| 0 <= i < |left| && x == LeafInput(left[i]);
      assert x == LeafInput(entries[i]);
    }
    forall x | x in LeafInputs(right) ensures x in LeafInputs(entries) {
      var i :| 0 <= i < |right| && x == LeafInput(right[i]);
      assert x == LeafInput(entries[split + i]);
    }
  }

  /** The one input whose digest is the root of a non-trivial position: empty, leaf or node. */
  ghost function RootInput(h: Hasher, entries: seq<Bytes>): (input: Bytes)
    ensures h(input) == RootOf(h, LeafHashes(h, entries))
    ensures input in LogInputs(h, entries)
  {
    var leaves := LeafHashes(h, entries);
    if |entries| == 0 then []
    else if |entries| == 1 then
      assert LeafInput(entries[0]) in LeafInputs(entries);
      LeafInput(entries[0])
    else
      var split := LargestPowerOfTwoBelow(|leaves|);
      NodeInput(RootOf(h, leaves[..split]), RootOf(h, leaves[split..]))
  }

  /**
   A root commits to the entries behind it, whatever their number: the 0x00 and 0x01 prefixes
   keep a leaf, a node and the empty log apart.
   */
  lemma {:induction false} RootBinding(h: Hasher, a: seq<Bytes>, b: seq<Bytes>)
    requires RootOf(h, LeafHashes(h, a)) == RootOf(h, LeafHashes(h, b))
    ensures a == b || HasCollision(h, LogInputs(h, a) + LogInputs(h, b))
    decreases |a|
  {
    EqualDigests(h, LogInputs(h, a) + LogInputs(h, b), RootInput(h, a), RootInput(h, b));
    if RootInput(h, a) == RootInput(h, b) {
      RootInputKind(h, a);
      RootInputKind(h, b);
      if |a| == 1 {
        SplitEqual([LEAF_PREFIX], a[0], [LEAF_PREFIX], b[0]);
      } else if |a| > 1 {
        var m, n := LargestPowerOfTwoBelow(|a|), LargestPowerOfTwoBelow(|b|);
        NodeInputInjective(RootOf(h, LeafHashes(h, a[..m])), RootOf(h, LeafHashes(h, a[m..])),
                           RootOf(h, LeafHashes(h, b[..n])), RootOf(h, LeafHashes(h, b[n..])));
        RootBinding(h, a[..m], b[..n]);
        RootBinding(h, a[m..], b[n..]);
        HalvesBind(h, a, m, b, n);
      }
    }
  }

  lemma HalvesBind(h: Hasher, a: seq<Bytes>, m: nat, b: seq<Bytes>, n: nat)
    requires |a| > 1 && m == LargestPowerOfTwoBelow(|a|)
    requires |b| > 1 && n == LargestPowerOfTwoBelow(|b|)
    requires a[..m] == b[..n] || HasCollision(h, LogInputs(h, a[..m]) + LogInputs(h, b[..n]))
    requires a[m..] == b[n..] || HasCollision(h, LogInputs(h, a[m..]) + LogInputs(h, b[n..]))
    ensures a == b || HasCollision(h, LogInputs(h, a) + LogInputs(h, b))
  {
    hide *;
    LogInputsSplit(h, a);
    LogInputsSplit(h, b);
    UnionMonotonic(h, LogInputs(h, a[..m]), LogInputs(h, a), LogInputs(h, b[..n]), LogInputs(h, b));
    UnionMonotonic(h, LogInputs(h, a[m..]), LogInputs(h, a), LogInputs(h, b[n..]), LogInputs(h, b));
    assert a == a[..m] + a[m..] && b == b[..n] + b[n..];
  }

  lemma RootInputKind(h: Hasher, entries: seq<Bytes>)
    ensures |entries| == 0 <==> RootInput(h, entries) == []
    ensures |entries| == 1 ==> RootInput(h, entries) == LeafInput(entries[0])
    ensures |entries| == 1 <==> RootInput(h, entries) != [] && RootInput(h, entries)[0] == LEAF_PREFIX
    ensures |entries| > 1 ==>
              var split := LargestPowerOfTwoBelow(|entries|);
              RootInput(h, entries) == NodeInput(RootOf(h, LeafHashes(h, entries[..split])),
                                                 RootOf(h, LeafHashes(h, entries[split..])))
  {
    if |entries| > 1 {
      LogInputsSplit(h, entries);
    }
  }
}
