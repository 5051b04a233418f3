/** Base64 with the standard alphabet and required padding (RFC 4648, section 4), and decimal numbers. */
module Base64 {
  import opened Bytes
  import opened Results

  const PAD: byte := 61

  type Sextet = v: int | 0 <= v < 64

  function Symbol(v: Sextet): (b: byte)
    ensures IsSymbol(b)
  {
    if v < 26 then 65 + v
    else if v < 52 then 97 + (v - 26)
    else if v < 62 then 48 + (v - 52)
    else if v == 62 then 43 else 47
  }

  predicate IsSymbol(b: byte) {
    65 <= b <= 90 || 97 <= b <= 122 || 48 <= b <= 57 || b == 43 || b == 47
  }

  function Value(b: byte): (v: Sextet)
    requires IsSymbol(b)
    ensures Symbol(v) == b
  {
    if 65 <= b <= 90 then b - 65
    else if 97 <= b <= 122 then b - 97 + 26
    else if 48 <= b <= 57 then b - 48 + 52
    else if b == 43 then 62 else 63
  }

  function Group(s: Bytes): (g: Bytes)
    requires 1 <= |s| <= 3
    ensures |g| == 4
  {
    if |s| == 1 then [Symbol(s[0] / 4), Symbol(s[0] % 4 * 16), PAD, PAD]
    else if |s| == 2 then [Symbol(s[0] / 4), Symbol(s[0] % 4 * 16 + s[1] / 16), Symbol(s[1] % 16 * 4), PAD]
    else [Symbol(s[0] / 4), Symbol(s[0] % 4 * 16 + s[1] / 16), Symbol(s[1] % 16 * 4 + s[2] / 64), Symbol(s[2] % 64)]
  }

  function Encode(s: Bytes): (text: Bytes)
    ensures |text| == (|s| + 2) / 3 * 4
    decreases |s|
  {
    if s == [] then []
    else if |s| <= 3 then Group(s)
    else
      Thirds(|s|);
      Group(s[..3]) + Encode(s[3..])
  }

  lemma Thirds(n: nat)
    requires n > 3
    ensures (n + 2) / 3 == (n - 3 + 2) / 3 + 1
  {
  }

  /** The bytes of one group: leftover bits must be zero, as they are when encoding. */
  function Ungroup(g: Bytes): Option<Bytes>
    requires |g| == 4
  {
    if !IsSymbol(g[0]) || !IsSymbol(g[1]) then None
    else
      var a, b := Value(g[0]), Value(g[1]);
      if g[2] == PAD then
        if g[3] == PAD && b % 16 == 0 then Some([a * 4 + b / 16]) else None
      else if !IsSymbol(g[2]) then None
      else
        var c := Value(g[2]);
        if g[3] == PAD then
          if c % 4 == 0 then Some([a * 4 + b / 16, b % 16 * 16 + c / 4]) else None
        else if !IsSymbol(g[3]) then None
        else Some([a * 4 + b / 16, b % 16 * 16 + c / 4, c % 4 * 64 + Value(g[3])])
  }

  /** Only the last group may be padded. */
  function Decode(text: Bytes): Option<Bytes>
    decreases |text|
  {
    if text == [] then Some([])
    else if |text| < 4 then None
    else if |text| == 4 then Ungroup(text)
    else
      match (Ungroup(text[..4]), Decode(text[4..]))
      case (Some(s), Some(rest)) => if |s| == 3 then Some(s + rest) else None
      case _ => None
  }

  lemma SymbolRoundTrip(v: Sextet)
    ensures Value(Symbol(v)) == v
  {
  }

  /** Two neighbouring bytes survive being cut at a six-bit boundary. */
  lemma Cuts(x: byte, y: byte)
    ensures x / 4 * 4 + (x % 4 * 16 + y / 16) / 16 == x
    ensures (x % 4 * 16 + y / 16) % 16 * 16 + y % 16 == y
    ensures (y % 16 * 4) / 4 == y % 16
    ensures (x % 4 * 16) % 16 == 0 && (y % 16 * 4) % 4 == 0
  {
  }

  lemma LastCuts(y: byte, z: byte)
    ensures (y % 16 * 4 + z / 64) / 4 == y % 16
    ensures (y % 16 * 4 + z / 64) % 4 * 64 + z % 64 == z
  {
  }

  lemma GroupRoundTrip(s: Bytes)
    requires 1 <= |s| <= 3
    ensures Ungroup(Group(s)) == Some(s)
  {
    var x := s[0];
    SymbolRoundTrip(x / 4);
    if |s| == 1 {
      SymbolRoundTrip(x % 4 * 16);
      Cuts(x, 0);
    } else {
      var y := s[1];
      SymbolRoundTrip(x % 4 * 16 + y / 16);
      Cuts(x, y);
      if |s| == 2 {
        SymbolRoundTrip(y % 16 * 4);
      } else {
        var z := s[2];
        SymbolRoundTrip(y % 16 * 4 + z / 64);
        SymbolRoundTrip(z % 64);
        LastCuts(y, z);
      }
    }
    hide Symbol, Value;
    var g := Group(s);
    if |s| == 1 {
      assert Ungroup(g) == Some([x]) && s == [x];
    } else if |s| == 2 {
      assert Ungroup(g) == Some([x, s[1]]) && s == [x, s[1]];
    } else {
      assert Ungroup(g) == Some([x, s[1], s[2]]) && s == [x, s[1], s[2]];
    }
  }

  lemma {:induction false} RoundTrip(s: Bytes)
    ensures Decode(Encode(s)) == Some(s)
    decreases |s|
  {
    if 1 <= |s| <= 3 {
      GroupRoundTrip(s);
    } else if s != [] {
      GroupRoundTrip(s[..3]);
      RoundTrip(s[3..]);
      hide Group, Ungroup;
      var text := Encode(s);
      assert text[..4] == Group(s[..3]) && text[4..] == Encode(s[3..]);
      assert s == s[..3] + s[3..];
    }
  }

  predicate Printable(s: Bytes) {
    forall b :: b in s ==> IsSymbol(b) || b == PAD
  }

  lemma {:induction false} EncodePrintable(s: Bytes)
    ensures Printable(Encode(s))
    decreases |s|
  {
    if |s| > 3 {
      EncodePrintable(s[3..]);
    }
  }

  // ---------------------------------------------------------------- decimal numbers

  /** Without leading zeros, as numbers are printed. */
  function Decimal(n: nat): (text: Bytes)
    ensures text != [] && forall b :: b in text ==> 48 <= b <= 57
  {
    if n < 10 then [48 + n] else Decimal(n / 10) + [48 + n % 10]
  }

  function Digits(text: Bytes): Option<nat> {
    if text == [] then Some(0)
    else
      var last := text[|text| - 1];
      match Digits(text[..|text| - 1])
      case Some(n) => if 48 <= last <= 57 then Some(n * 10 + (last - 48)) else None
      case None => None
  }

  /** Reads a 64-bit number; a leading `+` and leading zeros are let through. */
  function ParseU64(text: Bytes): Option<u64> {
    var digits := if |text| > 1 && text[0] == 43 then text[1..] else text;
    if digits == [] then None
    else
      match Digits(digits)
      case Some(n) => if n < 0x1_0000_0000_0000_0000 then Some(n) else None
      case None => None
  }

  lemma {:induction false} DigitsRoundTrip(n: nat)
    ensures Digits(Decimal(n)) == Some(n)
  {
    if n >= 10 {
      DigitsRoundTrip(n / 10);
      assert Decimal(n)[..|Decimal(n)| - 1] == Decimal(n / 10);
    } else {
      assert Decimal(n)[..0] == [];
    }
  }

  lemma DecimalRoundTrip(n: u64)
    ensures ParseU64(Decimal(n)) == Some(n)
  {
    DigitsRoundTrip(n);
    assert Decimal(n)[0] in Decimal(n);
  }

  /** A 64-bit number has at most twenty digits. */
  lemma {:induction false} DecimalLength(n: nat, width: nat)
    requires n < Pow10(width) && width > 0
    ensures |Decimal(n)| <= width
  {
    if n >= 10 {
      DecimalLength(n / 10, width - 1);
    }
  }

  function Pow10(k: nat): nat {
    if k == 0 then 1 else 10 * Pow10(k - 1)
  }
}
