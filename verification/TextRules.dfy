/** Base64 as RFC 4648 (section 4) has it, and decimal numbers, each pinned by its digits. */
module TextRules {
  import opened Base64
  import opened Bytes
  import opened Results

  // ---------------------------------------------------------------- base64

  /** The 64 digits, in order: capitals, small letters, figures, plus and slash. */
  lemma Capitals()
    ensures [Symbol(0), Symbol(1), Symbol(2), Symbol(3), Symbol(4), Symbol(5), Symbol(6), Symbol(7), Symbol(8),
             Symbol(9), Symbol(10), Symbol(11), Symbol(12), Symbol(13), Symbol(14), Symbol(15), Symbol(16), Symbol(17),
             Symbol(18), Symbol(19), Symbol(20), Symbol(21), Symbol(22), Symbol(23), Symbol(24), Symbol(25)]
         == Ascii("ABCDEFGHIJKLMNOPQRSTUVWXYZ")
  {
  }

  lemma SmallLetters()
    ensures [Symbol(26), Symbol(27), Symbol(28), Symbol(29), Symbol(30), Symbol(31), Symbol(32), Symbol(33), Symbol(34),
             Symbol(35), Symbol(36), Symbol(37), Symbol(38), Symbol(39), Symbol(40), Symbol(41), Symbol(42), Symbol(43),
             Symbol(44), Symbol(45), Symbol(46), Symbol(47), Symbol(48), Symbol(49), Symbol(50), Symbol(51)]
         == Ascii("abcdefghijklmnopqrstuvwxyz")
  {
  }

  lemma Figures()
    ensures [Symbol(52), Symbol(53), Symbol(54), Symbol(55), Symbol(56), Symbol(57), Symbol(58), Symbol(59), Symbol(60),
             Symbol(61)]
         == Ascii("0123456789")
    ensures [Symbol(62), Symbol(63)] == Ascii("+/")
  {
  }

  /** Three bytes are one number of 24 bits, and that is four digits of base 64. */
  lemma ThreeBytes(a: byte, b: byte, c: byte, p: Sextet, q: Sextet, r: Sextet, t: Sextet)
    requires a * 65536 + b * 256 + c == p * 262144 + q * 4096 + r * 64 + t
    ensures Encode([a, b, c]) == [Symbol(p), Symbol(q), Symbol(r), Symbol(t)]
  {
    hide Symbol;
    assert a / 4 == p && a % 4 * 16 + b / 16 == q;
    assert b % 16 * 4 + c / 64 == r && c % 64 == t;
  }

  /** One or two bytes at the end are padded with `=`. */
  lemma TwoBytes(a: byte, b: byte, p: Sextet, q: Sextet, r: Sextet)
    requires a * 65536 + b * 256 == p * 262144 + q * 4096 + r * 64
    ensures Encode([a, b]) == [Symbol(p), Symbol(q), Symbol(r), 61]
  {
    hide Symbol;
    assert a / 4 == p && a % 4 * 16 + b / 16 == q && b % 16 * 4 == r;
  }

  lemma OneByte(a: byte, p: Sextet, q: Sextet)
    requires a * 65536 == p * 262144 + q * 4096
    ensures Encode([a]) == [Symbol(p), Symbol(q), 61, 61]
  {
    hide Symbol;
    assert a / 4 == p && a % 4 * 16 == q;
  }

  lemma MoreBytes(s: Bytes)
    requires |s| >= 3
    ensures Encode(s) == Encode(s[..3]) + Encode(s[3..])
  {
    if |s| == 3 {
      assert s[..3] == s && s[3..] == [];
    }
    hide Symbol;
  }

  lemma GroupCanonical(g: Bytes)
    requires |g| == 4 && Ungroup(g).Some?
    ensures 1 <= |Ungroup(g).value| <= 3 && Group(Ungroup(g).value) == g
  {
    hide Symbol, Value, IsSymbol;
    var a: int, b: int := Value(g[0]), Value(g[1]);
    Joins(a, b);
    if g[2] == PAD {
      assert g == [g[0], g[1], PAD, PAD];
    } else {
      var c: int := Value(g[2]);
      JoinsWide(b, c);
      if g[3] == PAD {
        assert g == [g[0], g[1], g[2], PAD];
      } else {
        JoinsLast(c, Value(g[3]));
        assert g == [g[0], g[1], g[2], g[3]];
      }
    }
  }

  lemma Joins(a: int, b: int)
    requires 0 <= a < 64 && 0 <= b < 64
    ensures (a * 4 + b / 16) / 4 == a && (a * 4 + b / 16) % 4 == b / 16
  {
  }

  lemma JoinsWide(b: int, c: int)
    requires 0 <= b < 64 && 0 <= c < 64
    ensures (b % 16 * 16 + c / 4) / 16 == b % 16 && (b % 16 * 16 + c / 4) % 16 == c / 4
  {
  }

  lemma JoinsLast(c: int, d: int)
    requires 0 <= c < 64 && 0 <= d < 64
    ensures (c % 4 * 64 + d) / 64 == c % 4 && (c % 4 * 64 + d) % 64 == d
  {
  }

  /** Text is decoded to bytes if and only if it is their one encoding. */
  lemma {:induction false} DecodeExactly(text: Bytes, s: Bytes)
    ensures Decode(text) == Some(s) <==> text == Encode(s)
  {
    RoundTrip(s);
    if Decode(text) == Some(s) {
      DecodedIsEncoded(text);
    }
  }

  lemma {:induction false} DecodedIsEncoded(text: Bytes)
    requires Decode(text).Some?
    ensures text == Encode(Decode(text).value) && (text != [] ==> Decode(text).value != [])
    decreases |text|
  {
    hide Group, Ungroup;
    var s := Decode(text).value;
    if |text| == 4 {
      GroupCanonical(text);
    } else if text != [] {
      GroupCanonical(text[..4]);
      DecodedIsEncoded(text[4..]);
      assert s[..3] == Ungroup(text[..4]).value && s[3..] == Decode(text[4..]).value;
    }
  }

  // ---------------------------------------------------------------- decimal numbers

  /** What a run of digits stands for, the first being worth most, the last one of them `unit`. */
  function Numeral(text: Bytes, unit: nat): nat
    requires forall i :: 0 <= i < |text| ==> 48 <= text[i] <= 57
  {
    if text == [] then 0
    else Numeral(text[..|text| - 1], 10 * unit) + unit * (text[|text| - 1] - 48)
  }

  lemma {:induction false} Scaled(text: Bytes, unit: nat)
    requires forall i :: 0 <= i < |text| ==> 48 <= text[i] <= 57
    ensures Numeral(text, unit) == unit * Numeral(text, 1)
    decreases |text|
  {
    if text != [] {
      var front, digit := text[..|text| - 1], text[|text| - 1] - 48;
      Scaled(front, 10 * unit);
      Scaled(front, 10);
      Distribute(unit, Numeral(front, 1), digit);
      hide Numeral;
    }
  }

  lemma Distribute(unit: nat, front: nat, digit: nat)
    ensures 10 * unit * front + unit * digit == unit * (10 * front + digit)
  {
  }

  /** A number is printed as the digits that stand for it, without a leading zero. */
  lemma {:induction false} DecimalExactly(n: nat)
    ensures var text := Decimal(n);
            && (forall i :: 0 <= i < |text| ==> 48 <= text[i] <= 57)
            && Numeral(text, 1) == n && (text[0] == 48 ==> n == 0 && |text| == 1)
    decreases n
  {
    if n < 10 {
      assert Numeral([], 10) == 0;
    } else {
      DecimalExactly(n / 10);
      Scaled(Decimal(n / 10), 10);
      assert Decimal(n)[..|Decimal(n)| - 1] == Decimal(n / 10);
    }
  }
}
