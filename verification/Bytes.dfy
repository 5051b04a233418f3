/** Byte strings and the big-endian, length-prefixed fields every HIDE structure is built from. */
module Bytes {

  type byte = x: int | 0 <= x < 256

  type Bytes = seq<byte>

  type u64 = n: int | 0 <= n < 0x1_0000_0000_0000_0000

  /** What one allocation can hold: a few of these together still have a length below 2^64. */
  type Blob = s: Bytes | |s| < 0x2000_0000_0000_0000

  function Zeros(n: nat): (s: Bytes)
    ensures |s| == n
  {
    seq(n, _ => 0)
  }

  /** The bytes of a label or domain separator written in ASCII. */
  function Ascii(text: string): (s: Bytes)
    ensures |s| == |text|
  {
    seq(|text|, i requires 0 <= i < |text| => if text[i] < 128 as char then text[i] as int else 63)
  }

  /** Text within ASCII is its own code points. */
  lemma AsciiExactly(text: string, i: nat)
    requires i < |text| && text[i] < 128 as char
    ensures Ascii(text)[i] == text[i] as int
    ensures Ascii("HIDE-EPK") == [0x48, 0x49, 0x44, 0x45, 0x2d, 0x45, 0x50, 0x4b]
  {
  }

  function Pow256(k: nat): (p: nat)
    ensures p > 0
  {
    if k == 0 then 1 else 256 * Pow256(k - 1)
  }

  /** The low `width` base-256 digits of `n`, most significant first. */
  function BigEndian(n: nat, width: nat): (s: Bytes)
    ensures |s| == width
  {
    if width == 0 then [] else BigEndian(n / 256, width - 1) + [n % 256]
  }

  function FromBigEndian(s: Bytes): (n: nat)
  {
    if s == [] then 0 else FromBigEndian(s[..|s| - 1]) * 256 + s[|s| - 1]
  }

  lemma {:induction false} FromToBigEndian(n: nat, width: nat)
    requires n < Pow256(width)
    ensures FromBigEndian(BigEndian(n, width)) == n
  {
    if width > 0 {
      FromToBigEndian(n / 256, width - 1);
      assert BigEndian(n, width)[..width - 1] == BigEndian(n / 256, width - 1);
    }
  }

  lemma {:induction false} ToFromBigEndian(s: Bytes)
    ensures FromBigEndian(s) < Pow256(|s|)
    ensures BigEndian(FromBigEndian(s), |s|) == s
  {
    if s != [] {
      ToFromBigEndian(s[..|s| - 1]);
      assert s == s[..|s| - 1] + [s[|s| - 1]];
    }
  }

  lemma WordBounds()
    ensures Pow256(1) == 0x100
    ensures Pow256(2) == 0x1_0000
    ensures Pow256(4) == 0x1_0000_0000
    ensures Pow256(8) == 0x1_0000_0000_0000_0000
  {
    assert Pow256(2) == 256 * Pow256(1);
    assert Pow256(3) == 256 * Pow256(2);
    assert Pow256(4) == 256 * Pow256(3);
    assert Pow256(5) == 256 * Pow256(4);
    assert Pow256(6) == 256 * Pow256(5);
    assert Pow256(7) == 256 * Pow256(6);
  }

  function U64(n: u64): (s: Bytes)
    ensures |s| == 8
  {
    BigEndian(n, 8)
  }

  function FromU64(s: Bytes): (n: u64)
    requires |s| == 8
  {
    WordBounds();
    ToFromBigEndian(s);
    FromBigEndian(s)
  }

  lemma U64RoundTrip(n: u64)
    ensures FromU64(U64(n)) == n
  {
    WordBounds();
    FromToBigEndian(n, 8);
  }

  lemma U64OfFrom(s: Bytes)
    requires |s| == 8
    ensures U64(FromU64(s)) == s
  {
    ToFromBigEndian(s);
  }

  lemma FromBigEndianStep(s: Bytes)
    requires s != []
    ensures FromBigEndian(s) == FromBigEndian(s[..|s| - 1]) * 256 + s[|s| - 1]
  {
  }

  /** Eight bytes stand for one number, the most significant byte first. */
  lemma U64Digits(a: byte, b: byte, c: byte, d: byte, e: byte, f: byte, g: byte, h: byte)
    ensures var n := a * 0x100_0000_0000_0000 + b * 0x1_0000_0000_0000 + c * 0x100_0000_0000 + d * 0x1_0000_0000
                     + e * 0x100_0000 + f * 0x1_0000 + g * 0x100 + h;
            U64(n) == [a, b, c, d, e, f, g, h]
  {
    FromBigEndianStep([a]);
    FromBigEndianStep([a, b]);
    FromBigEndianStep([a, b, c]);
    FromBigEndianStep([a, b, c, d]);
    FromBigEndianStep([a, b, c, d, e]);
    FromBigEndianStep([a, b, c, d, e, f]);
    FromBigEndianStep([a, b, c, d, e, f, g]);
    FromBigEndianStep([a, b, c, d, e, f, g, h]);
    U64OfFrom([a, b, c, d, e, f, g, h]);
    assert FromBigEndian([]) == 0;
    hide FromBigEndian, U64;
    assert [a][..0] == [] && [a, b][..1] == [a] && [a, b, c][..2] == [a, b] && [a, b, c, d][..3] == [a, b, c];
    assert [a, b, c, d, e][..4] == [a, b, c, d] && [a, b, c, d, e, f][..5] == [a, b, c, d, e];
    assert [a, b, c, d, e, f, g][..6] == [a, b, c, d, e, f];
    assert [a, b, c, d, e, f, g, h][..7] == [a, b, c, d, e, f, g];
  }

  lemma U64Injective(m: u64, n: u64)
    requires U64(m) == U64(n)
    ensures m == n
  {
    U64RoundTrip(m);
    U64RoundTrip(n);
  }

  /** Equal concatenations whose first halves have one length split into equal halves. */
  lemma SplitEqual<T>(a: seq<T>, b: seq<T>, x: seq<T>, y: seq<T>)
    requires |a| == |x|
    requires a + b == x + y
    ensures a == x && b == y
  {
    assert a == (a + b)[..|a|] == (x + y)[..|a|] == x;
    assert b == (a + b)[|a|..] == (x + y)[|a|..] == y;
  }

  lemma AppendMoves<T>(a: seq<T>, x: T, rest: seq<T>)
    ensures a + ([x] + rest) == (a + [x]) + rest
  {
  }

  /** A byte string preceded by its length, as in `u64be(len(field)) || field`. */
  function Field(s: Bytes): (f: Bytes)
    requires |s| < 0x1_0000_0000_0000_0000
    ensures |f| == 8 + |s|
  {
    U64(|s|) + s
  }

  /** A length-prefixed field cannot trade bytes with whatever follows it. */
  lemma FieldSplit(a: Bytes, rest: Bytes, b: Bytes, rest': Bytes)
    requires |a| < 0x1_0000_0000_0000_0000 && |b| < 0x1_0000_0000_0000_0000
    requires Field(a) + rest == Field(b) + rest'
    ensures a == b && rest == rest'
  {
    assert Field(a) + rest == U64(|a|) + (a + rest);
    assert Field(b) + rest' == U64(|b|) + (b + rest');
    SplitEqual(U64(|a|), a + rest, U64(|b|), b + rest');
    U64Injective(|a|, |b|);
    SplitEqual(a, rest, b, rest');
  }

  /** The first place `b` stands at, or the length. */
  function FirstIndex(s: Bytes, b: byte): (i: nat)
    ensures i <= |s| && (i < |s| ==> s[i] == b) && forall j :: 0 <= j < i ==> s[j] != b
  {
    if s == [] || s[0] == b then 0 else 1 + FirstIndex(s[1..], b)
  }

  lemma FirstIndexAt(s: Bytes, b: byte, i: nat)
    requires i < |s| && s[i] == b && forall j :: 0 <= j < i ==> s[j] != b
    ensures FirstIndex(s, b) == i
  {
  }
}
