/**
 A hash function is any function from byte strings to 32 bytes. None of them is injective, so a
 theorem that rests on collision resistance names the inputs it hashes and says: the conclusion
 holds, or two of those very inputs are different and have one digest.
 */
module Hashing {
  import opened Bytes

  type Digest = s: Bytes | |s| == 32 witness seq(32, _ => 0)

  type Hasher = Bytes -> Digest

  ghost predicate HasCollision(h: Hasher, inputs: set<Bytes>) {
    exists x, y :: x in inputs && y in inputs && x != y && h(x) == h(y)
  }

  lemma CollisionMonotonic(h: Hasher, inputs: set<Bytes>, more: set<Bytes>)
    requires inputs <= more
    ensures HasCollision(h, inputs) ==> HasCollision(h, more)
  {
    if HasCollision(h, inputs) {
      var x, y :| x in inputs && y in inputs && x != y && h(x) == h(y);
      assert x in more && y in more;
    }
  }

  lemma UnionMonotonic(h: Hasher, a: set<Bytes>, a': set<Bytes>, b: set<Bytes>, b': set<Bytes>)
    requires a <= a' && b <= b'
    ensures HasCollision(h, a + b) ==> HasCollision(h, a' + b')
  {
    CollisionMonotonic(h, a + b, a' + b');
  }

  /** Two listed inputs with one digest are the same input, or the list holds a collision. */
  lemma EqualDigests(h: Hasher, inputs: set<Bytes>, x: Bytes, y: Bytes)
    requires x in inputs && y in inputs && h(x) == h(y)
    ensures x == y || HasCollision(h, inputs)
  {
  }
}
