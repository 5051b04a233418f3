/** The wire forms written out byte by byte, as RFC 8949 (sections 3 and 4.2.1) gives them. */
module WireForms {
  import opened Bytes
  import opened Cbor
  import opened CborLists

  /** The shortest head of a major type and an argument. */
  function Item(major: Major, n: u64): Bytes {
    if n < 24 then [32 * major + n]
    else if n <= 0xff then [32 * major + 24, n]
    else if n <= 0xffff then [32 * major + 25, n / 256, n % 256]
    else if n <= 0xffff_ffff then [32 * major + 26] + U64(n)[4..]
    else [32 * major + 27] + U64(n)
  }

  function ByteString(s: Blob): Bytes {
    Item(2, |s|) + s
  }

  function TextString(s: Blob): Bytes {
    Item(3, |s|) + s
  }

  /** Items one after another. */
  function Joined<T>(form: T -> Bytes, items: seq<T>): Bytes {
    if items == [] then [] else form(items[0]) + Joined(form, items[1..])
  }

  lemma HeadIsItem(major: Major, n: u64)
    ensures HeadBytes(major, n) == Item(major, n)
  {
    if n <= 0xff {
      assert n >= 24 ==> BigEndian(n, 1) == BigEndian(n / 256, 0) + [n];
    } else if n <= 0xffff {
      assert BigEndian(n, 2) == (BigEndian(n / 256 / 256, 0) + [n / 256 % 256]) + [n % 256];
    } else if n <= 0xffff_ffff {
      LastFour(n);
    }
  }

  lemma BigEndianStep(n: nat, width: nat)
    requires width > 0
    ensures BigEndian(n, width) == BigEndian(n / 256, width - 1) + [n % 256]
  {
  }

  lemma LastFour(n: u64)
    ensures BigEndian(n, 4) == U64(n)[4..]
  {
    hide BigEndian;
    var a, b, c := n / 256, n / 256 / 256, n / 256 / 256 / 256;
    BigEndianStep(n, 4);
    BigEndianStep(a, 3);
    BigEndianStep(b, 2);
    BigEndianStep(c, 1);
    BigEndianStep(n, 8);
    BigEndianStep(a, 7);
    BigEndianStep(b, 6);
    BigEndianStep(c, 5);
    assert BigEndian(c / 256, 0) == [];
    assert BigEndian(n, 8) == BigEndian(c / 256, 4) + [c % 256, b % 256, a % 256, n % 256];
  }

  /** A 32-bit number, the most significant byte first. */
  function Word(n: u64): Bytes {
    U64(n)[4..]
  }

  lemma WordIs(n: u64)
    ensures U64(n) == BigEndian(n, 8) && Word(n) == BigEndian(n, 4)
  {
    LastFour(n);
  }

  lemma UintForm(n: u64, rest: Bytes)
    ensures PutUint(n, rest) == Item(0, n) + rest
  {
    hide HeadBytes, Item;
    HeadIsItem(0, n);
  }

  lemma ArrayForm(n: u64, rest: Bytes)
    ensures PutArray(n, rest) == Item(4, n) + rest
  {
    hide HeadBytes, Item;
    HeadIsItem(4, n);
  }

  lemma MapForm(n: u64, rest: Bytes)
    ensures PutMap(n, rest) == Item(5, n) + rest
  {
    hide HeadBytes, Item;
    HeadIsItem(5, n);
  }

  lemma BytesForm(s: Blob, rest: Bytes)
    ensures PutBytes(s, rest) == ByteString(s) + rest
  {
    hide HeadBytes, Item;
    HeadIsItem(2, |s|);
  }

  lemma TextForm(s: Blob, rest: Bytes)
    ensures PutText(s, rest) == TextString(s) + rest
  {
    hide HeadBytes, Item;
    HeadIsItem(3, |s|);
  }

  /** Items each written in its form are written one after another. */
  lemma {:induction false} AllForm<T>(put: (T, Bytes) -> Bytes, form: T -> Bytes, items: seq<T>, rest: Bytes)
    requires forall item: T, more: Bytes | item in items :: put(item, more) == form(item) + more
    ensures PutAll(put, items, rest) == Joined(form, items) + rest
    decreases |items|
  {
    if items == [] {
      assert [] + rest == rest;
    } else {
      AllForm(put, form, items[1..], rest);
      var first, others := form(items[0]), Joined(form, items[1..]);
      assert put(items[0], PutAll(put, items[1..], rest)) == first + PutAll(put, items[1..], rest);
      assert (first + others) + rest == first + (others + rest);
    }
  }
}
