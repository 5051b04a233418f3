/**
 The part of CBOR (RFC 8949) the formats use. A writer emits the shortest head for an argument
 (section 4.2.1); a reader also takes wider heads, which is why every decoder re-encodes.
 A writer here puts an item in front of the bytes that follow it, so that reading peels it off.
 */
module Cbor {
  import opened Bytes
  import opened Results

  const UINT := 0
  const BYTES := 2
  const TEXT := 3
  const ARRAY := 4
  const MAP := 5

  type Major = m: int | 0 <= m < 8

  // ---------------------------------------------------------------- heads

  function HeadBytes(major: Major, n: u64): (s: Bytes)
    ensures 1 <= |s| <= 9
    ensures s[0] / 32 == major
  {
    if n < 24 then [32 * major + n]
    else if n < 0x100 then [32 * major + 24] + BigEndian(n, 1)
    else if n < 0x1_0000 then [32 * major + 25] + BigEndian(n, 2)
    else if n < 0x1_0000_0000 then [32 * major + 26] + BigEndian(n, 4)
    else [32 * major + 27] + BigEndian(n, 8)
  }

  /** An item head; the argument is absent for an item of indefinite length. */
  datatype Head = Head(major: Major, argument: Option<u64>, rest: Bytes)

  function ReadArgument(s: Bytes, width: nat): (result: Option<(u64, Bytes)>)
    requires 1 <= width <= 8
  {
    if |s| < width then None
    else
      var n := FromBigEndian(s[..width]);
      ToFromBigEndian(s[..width]);
      WidthBound(width);
      Some((n, s[width..]))
  }

  lemma WidthBound(width: nat)
    requires width <= 8
    ensures Pow256(width) <= Pow256(8) == 0x1_0000_0000_0000_0000
  {
    WordBounds();
    assert Pow256(8) == 256 * Pow256(7) && Pow256(7) == 256 * Pow256(6) && Pow256(6) == 256 * Pow256(5);
    assert Pow256(5) == 256 * Pow256(4) && Pow256(4) == 256 * Pow256(3) && Pow256(3) == 256 * Pow256(2);
  }

  function ReadHead(s: Bytes): Option<Head> {
    if s == [] then None
    else
      var major, info := s[0] / 32, s[0] % 32;
      if info < 24 then Some(Head(major, Some(info), s[1..]))
      else if info == 31 then Some(Head(major, None, s[1..]))
      else if info > 27 then None
      else
        var width := if info == 24 then 1 else if info == 25 then 2 else if info == 26 then 4 else 8;
        match ReadArgument(s[1..], width)
        case None => None
        case Some((n, rest)) => Some(Head(major, Some(n), rest))
  }

  lemma ArgumentRoundTrip(n: u64, width: nat, rest: Bytes)
    requires 1 <= width <= 8 && n < Pow256(width)
    ensures ReadArgument(BigEndian(n, width) + rest, width) == Some((n, rest))
  {
    var s := BigEndian(n, width) + rest;
    assert s[..width] == BigEndian(n, width) && s[width..] == rest;
    FromToBigEndian(n, width);
  }

  lemma HeadRoundTrip(major: Major, n: u64, rest: Bytes)
    ensures ReadHead(HeadBytes(major, n) + rest) == Some(Head(major, Some(n), rest))
  {
    WordBounds();
    var s := HeadBytes(major, n) + rest;
    if n < 24 {
      assert s[1..] == rest;
    } else {
      var width := if n < 0x100 then 1 else if n < 0x1_0000 then 2 else if n < 0x1_0000_0000 then 4 else 8;
      ArgumentRoundTrip(n, width, rest);
      assert s[1..] == BigEndian(n, width) + rest;
    }
  }

  // ---------------------------------------------------------------- writing

  function PutUint(n: u64, rest: Bytes): Bytes {
    HeadBytes(UINT, n) + rest
  }

  function PutArray(n: u64, rest: Bytes): Bytes {
    HeadBytes(ARRAY, n) + rest
  }

  function PutMap(n: u64, rest: Bytes): Bytes {
    HeadBytes(MAP, n) + rest
  }

  function PutBytes(s: Blob, rest: Bytes): Bytes {
    HeadBytes(BYTES, |s|) + s + rest
  }

  function PutText(s: Blob, rest: Bytes): Bytes {
    HeadBytes(TEXT, |s|) + s + rest
  }

  /** An item stands in front of whatever follows it. */
  lemma UintAppends(n: u64, a: Bytes, rest: Bytes)
    ensures PutUint(n, a + rest) == PutUint(n, a) + rest
  {
    hide HeadBytes;
  }

  lemma ArrayAppends(n: u64, a: Bytes, rest: Bytes)
    ensures PutArray(n, a + rest) == PutArray(n, a) + rest
  {
    hide HeadBytes;
  }

  lemma BytesAppends(s: Blob, a: Bytes, rest: Bytes)
    ensures PutBytes(s, a + rest) == PutBytes(s, a) + rest
  {
    hide HeadBytes;
  }

  lemma TextAppends(s: Blob, a: Bytes, rest: Bytes)
    ensures PutText(s, a + rest) == PutText(s, a) + rest
  {
    hide HeadBytes;
  }

  // ---------------------------------------------------------------- reading

  /** An unsigned integer below `limit`, in a head of any width. */
  function ReadUint(s: Bytes, limit: nat): Option<(u64, Bytes)> {
    match ReadHead(s)
    case Some(Head(found, Some(n), rest)) => if found == UINT && n < limit then Some((n, rest)) else None
    case _ => None
  }

  /** The declared length of an array or map; the inner option is None for an indefinite one. */
  function ReadLength(s: Bytes, major: Major): Option<(Option<u64>, Bytes)> {
    match ReadHead(s)
    case Some(Head(found, argument, rest)) => if found == major then Some((argument, rest)) else None
    case None => None
  }

  /** As `ReadLength`, refusing an indefinite length. */
  function ReadCount(s: Bytes, major: Major): Option<(u64, Bytes)> {
    match ReadLength(s, major)
    case Some((Some(n), rest)) => Some((n, rest))
    case _ => None
  }

  /** A definite-length string; no input is long enough for the bound on `n` to matter. */
  function ReadString(s: Bytes, major: Major): (result: Option<(Blob, Bytes)>)
  {
    match ReadHead(s)
    case Some(Head(found, Some(n), rest)) =>
      if found == major && n <= |rest| && n < 0x2000_0000_0000_0000 then Some((rest[..n], rest[n..])) else None
    case _ => None
  }

  function ReadBytes(s: Bytes): Option<(Blob, Bytes)> {
    ReadString(s, BYTES)
  }

  function ReadText(s: Bytes): Option<(Blob, Bytes)> {
    match ReadString(s, TEXT)
    case Some((text, rest)) => if Utf8(text) then Some((text, rest)) else None
    case None => None
  }

  /** Whether a byte string is well-formed UTF-8 (RFC 3629, section 4). */
  predicate Utf8(s: Bytes)
    decreases |s|
  {
    s == [] || (CharWidth(s) > 0 && Utf8(s[CharWidth(s)..]))
  }

  /** How many bytes the first character takes; zero if none is encoded there. */
  function CharWidth(s: Bytes): (n: nat)
    requires s != []
    ensures n <= |s|
  {
    if s[0] < 0x80 then 1
    else if 0xc2 <= s[0] <= 0xdf then
      if |s| >= 2 && Tail(s[1]) then 2 else 0
    else if 0xe0 <= s[0] <= 0xef then
      if |s| >= 3 && Tail(s[1]) && Tail(s[2]) && (s[0] == 0xe0 ==> s[1] >= 0xa0) && (s[0] == 0xed ==> s[1] <= 0x9f)
      then 3 else 0
    else if 0xf0 <= s[0] <= 0xf4 then
      if && |s| >= 4 && Tail(s[1]) && Tail(s[2]) && Tail(s[3])
         && (s[0] == 0xf0 ==> s[1] >= 0x90) && (s[0] == 0xf4 ==> s[1] <= 0x8f)
      then 4 else 0
    else 0
  }

  predicate Tail(b: byte) {
    0x80 <= b <= 0xbf
  }

  /** A C0 control, DEL or a C1 control is encoded at `i`. */
  predicate ControlAt(s: Bytes, i: nat)
    requires i < |s|
  {
    || s[i] < 0x20
    || s[i] == 0x7f
    || (s[i] == 0xc2 && i + 1 < |s| && 0x80 <= s[i + 1] <= 0x9f)
  }

  predicate AllAscii(s: Bytes) {
    forall i :: 0 <= i < |s| ==> s[i] < 0x80
  }

  lemma CharWidthAppend(s: Bytes, rest: Bytes)
    requires s != [] && CharWidth(s) > 0
    ensures CharWidth(s + rest) == CharWidth(s)
  {
  }

  lemma {:induction false} Utf8Append(s: Bytes, rest: Bytes)
    requires Utf8(s) && Utf8(rest)
    ensures Utf8(s + rest)
    decreases |s|
  {
    if s == [] {
      assert s + rest == rest;
    } else {
      hide CharWidth;
      var n := CharWidth(s);
      CharWidthAppend(s, rest);
      Utf8Append(s[n..], rest);
      assert (s + rest)[n..] == s[n..] + rest;
    }
  }

  lemma {:induction false} AsciiUtf8(s: Bytes)
    requires AllAscii(s)
    ensures Utf8(s)
    decreases |s|
  {
    if s != [] {
      AsciiUtf8(s[1..]);
    }
  }

  // ---------------------------------------------------------------- what is written is read back

  lemma UintRoundTrip(n: u64, limit: nat, rest: Bytes)
    ensures ReadUint(PutUint(n, rest), limit) == if n < limit then Some((n, rest)) else None
  {
    HeadRoundTrip(UINT, n, rest);
  }

  lemma ArrayRoundTrip(n: u64, rest: Bytes)
    ensures ReadLength(PutArray(n, rest), ARRAY) == Some((Some(n), rest))
    ensures ReadCount(PutArray(n, rest), ARRAY) == Some((n, rest))
  {
    HeadRoundTrip(ARRAY, n, rest);
  }

  lemma MapRoundTrip(n: u64, rest: Bytes)
    ensures ReadCount(PutMap(n, rest), MAP) == Some((n, rest))
  {
    HeadRoundTrip(MAP, n, rest);
  }

  lemma StringRoundTrip(major: Major, s: Blob, rest: Bytes)
    ensures ReadString(HeadBytes(major, |s|) + s + rest, major) == Some((s, rest))
  {
    assert HeadBytes(major, |s|) + s + rest == HeadBytes(major, |s|) + (s + rest);
    HeadRoundTrip(major, |s|, s + rest);
    assert (s + rest)[..|s|] == s && (s + rest)[|s|..] == rest;
  }

  lemma BytesRoundTrip(s: Blob, rest: Bytes)
    ensures ReadBytes(PutBytes(s, rest)) == Some((s, rest))
  {
    StringRoundTrip(BYTES, s, rest);
  }

  lemma TextRoundTrip(s: Blob, rest: Bytes)
    ensures ReadText(PutText(s, rest)) == if Utf8(s) then Some((s, rest)) else None
  {
    StringRoundTrip(TEXT, s, rest);
  }
}
