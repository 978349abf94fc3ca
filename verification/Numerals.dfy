/** Numerals: what their digits mean, and that `strtol` with base 0 reads back
    what they spell (section 7.20.1.4 of ISO/IEC 9899:1999). */
module Numerals {
  import opened Names
  import opened Lexing
  import opened Listing
  import opened RoundTrip

  // ---- digits and places ----

  predicate IsOctal(c: char) { '0' <= c <= '7' }

  predicate IsDecimal(c: char) { '0' <= c <= '9' }

  predicate IsHex(c: char) { '0' <= c <= '9' || 'a' <= c <= 'f' || 'A' <= c <= 'F' }

  /** The values of the digits, and which characters are digits. */
  lemma Digits(c: char)
    ensures IsDecimal(c) ==> DigitValue(c) == c as int - 48
    ensures 'a' <= c <= 'f' ==> DigitValue(c) == c as int - 87
    ensures 'A' <= c <= 'F' ==> DigitValue(c) == c as int - 55
    ensures DigitValue(c) < 16 <==> IsHex(c)
    ensures DigitValue(c) < 10 <==> IsDecimal(c)
    ensures DigitValue(c) < 8 <==> IsOctal(c)
  {
  }

  function Power(base: nat, k: nat): nat { if k == 0 then 1 else base * Power(base, k - 1) }

  /** The first digit counts the most: it has as many places as digits follow. */
  lemma {:induction false} NumberByPlaces(c: char, s: string, base: nat)
    ensures NumberOf([c] + s, base) == DigitValue(c) * Power(base, |s|) + NumberOf(s, base)
  {
    var t := [c] + s;
    if s == "" {
      assert t[..0] == "";
    } else {
      hide DigitValue;
      var front := s[..|s| - 1];
      NumberByPlaces(c, front, base);
      assert t[..|s|] == [c] + front;
      var v, q := DigitValue(c), Power(base, |front|);
      var w, x := NumberOf(front, base), DigitValue(s[|s| - 1]);
      assert NumberOf([c] + front, base) == v * q + w;
      assert NumberOf(t, base) == (v * q + w) * base + x;
      Places(v, q, w, base);
    }
  }

  lemma Places(v: nat, q: nat, w: nat, base: nat)
    ensures (v * q + w) * base == v * (base * q) + w * base
  {
  }

  // ---- what strtol reads, digit by digit ----

  /** `0x` or `0X` and hexadecimal digits of either case, up to the first
      character that is none. */
  lemma HexNumeral(x: char, w: string, rest: string)
    requires (x == 'x' || x == 'X') && w != "" && forall c :: c in w ==> IsHex(c)
    requires rest != "" ==> !IsHex(rest[0])
    ensures Strtol(['0', x] + w + rest) == (NumberOf(w, 16), 2 + |w|)
  {
    hide NumberOf, DigitValue;
    forall c: char
      ensures DigitValue(c) < 16 <==> IsHex(c)
    {
      Digits(c);
    }
    var t := ['0', x] + w + rest;
    assert t == ['0', x] + (w + rest);
    assert t[2..] == w + rest;
    assert t[2..2 + |w|] == w;
    assert w[0] in w && t[2] == w[0];
    DigitSpanOf(w, rest, 16);
  }

  /** A leading `0` makes the digits octal. */
  lemma OctalNumeral(w: string, rest: string)
    requires w != "" && w[0] == '0' && forall c :: c in w ==> IsOctal(c)
    requires rest != "" ==> !IsOctal(rest[0]) && (w == "0" ==> rest[0] != 'x' && rest[0] != 'X')
    ensures Strtol(w + rest) == (NumberOf(w, 8), |w|)
  {
    hide NumberOf, DigitValue;
    forall c: char
      ensures DigitValue(c) < 8 <==> IsOctal(c)
    {
      Digits(c);
    }
    var t := w + rest;
    assert t[..|w|] == w;
    if |w| > 1 {
      assert t[1] == w[1] && w[1] in w;
    }
    DigitSpanOf(w, rest, 8);
  }

  /** Any other first digit makes them decimal. */
  lemma DecimalNumeral(w: string, rest: string)
    requires w != "" && '1' <= w[0] <= '9' && forall c :: c in w ==> IsDecimal(c)
    requires rest != "" ==> !IsDecimal(rest[0])
    ensures Strtol(w + rest) == (NumberOf(w, 10), |w|)
  {
    hide NumberOf, DigitValue;
    forall c: char
      ensures DigitValue(c) < 10 <==> IsDecimal(c)
    {
      Digits(c);
    }
    assert (w + rest)[..|w|] == w;
    DigitSpanOf(w, rest, 10);
  }

  /** `0x` without a hexadecimal digit is the number 0 before a word. */
  lemma BarePrefix(x: char, rest: string)
    requires (x == 'x' || x == 'X') && (rest != "" ==> !IsHex(rest[0]))
    ensures Strtol(['0', x] + rest) == (0, 1)
  {
    var t := ['0', x] + rest;
    assert t == "0" + ([x] + rest) && t[..1] == "0";
    DigitSpanOf("0", [x] + rest, 8);
    ZeroText();
  }

  /** A numeral is one token, and an invalid one past 31 bits. */
  lemma NumberToken(w: string, rest: string)
    requires w != "" && '0' <= w[0] <= '9' && Strtol(w + rest).1 == |w|
    ensures var value := Strtol(w + rest).0;
            Tokens(w + rest) == [if value <= 0x7FFF_FFFF then NUMBER(value) else INVALID] + Tokens(rest)
  {
    hide Strtol, Tokens;
    var value := Strtol(w + rest).0;
    TokensStart(w, rest, if value <= 0x7FFF_FFFF then NUMBER(value) else INVALID);
  }

  // ---- printing and reading ----

  function HexChar(d: nat, upper: bool): char
    requires d < 16
  {
    if upper then "0123456789ABCDEF"[d] else "0123456789abcdef"[d]
  }

  function Hex(n: nat, upper: bool): (s: string)
    ensures s != ""
  {
    if n < 16 then [HexChar(n, upper)] else Hex(n / 16, upper) + [HexChar(n % 16, upper)]
  }

  function Octal(n: nat): (s: string)
    ensures s != ""
  {
    if n < 8 then [DigitChar(n)] else Octal(n / 8) + [DigitChar(n % 8)]
  }

  lemma HexCharValue(d: nat, upper: bool)
    requires d < 16
    ensures DigitValue(HexChar(d, upper)) == d
  {
  }

  lemma {:induction false} HexDigits(n: nat, upper: bool)
    ensures forall c :: c in Hex(n, upper) ==> DigitValue(c) < 16
    ensures NumberOf(Hex(n, upper), 16) == n
  {
    hide HexChar, DigitValue;
    var s := Hex(n, upper);
    HexCharValue(n % 16, upper);
    if n < 16 {
      assert s[..0] == "";
    } else {
      HexDigits(n / 16, upper);
      assert s[..|s| - 1] == Hex(n / 16, upper);
    }
  }

  lemma DigitCharValue(d: nat)
    requires d < 10
    ensures DigitValue(DigitChar(d)) == d
  {
  }

  lemma {:induction false} OctalDigits(n: nat)
    ensures forall c :: c in Octal(n) ==> DigitValue(c) < 8
    ensures NumberOf(Octal(n), 8) == n
  {
    hide DigitChar, DigitValue;
    var s := Octal(n);
    DigitCharValue(n % 8);
    if n < 8 {
      assert s[..0] == "";
    } else {
      OctalDigits(n / 8);
      assert s[..|s| - 1] == Octal(n / 8);
    }
  }

  /** `0x` or `0X` and the hexadecimal digits of n, of either case. */
  lemma StrtolOfHex(x: char, n: nat, upper: bool, rest: string)
    requires (x == 'x' || x == 'X') && (rest != "" ==> !IsHex(rest[0]))
    ensures Strtol(['0', x] + Hex(n, upper) + rest) == (n, 2 + |Hex(n, upper)|)
  {
    hide Hex, NumberOf, DigitValue, Strtol;
    HexDigits(n, upper);
    forall c | c in Hex(n, upper)
      ensures IsHex(c)
    {
      Digits(c);
    }
    HexNumeral(x, Hex(n, upper), rest);
  }

  /** `0` and the octal digits of n. */
  lemma StrtolOfOctal(n: nat, rest: string)
    requires rest != "" ==> !IsOctal(rest[0])
    ensures Strtol("0" + Octal(n) + rest) == (n, 1 + |Octal(n)|)
  {
    hide Octal, NumberOf, DigitValue, Strtol;
    OctalDigits(n);
    var w := "0" + Octal(n);
    forall c | c in w
      ensures IsOctal(c)
    {
      Digits(c);
    }
    OctalNumeral(w, rest);
    NumberByPlaces('0', Octal(n), 8);
    Digits('0');
  }

  lemma {:induction false} ZerosInFront(k: nat, s: string, base: nat)
    ensures NumberOf(seq(k, _ => '0') + s, base) == NumberOf(s, base)
  {
    if k == 0 {
      assert seq(k, _ => '0') + s == s;
    } else {
      ZerosInFront(k - 1, s, base);
      assert seq(k, _ => '0') + s == ['0'] + (seq(k - 1, _ => '0') + s);
      NumberByPlaces('0', seq(k - 1, _ => '0') + s, base);
      Digits('0');
    }
  }

  /** An index in a listing: the decimal digits of the number, with zeros in front
      up to four places. */
  lemma PaddedReads(n: nat)
    ensures |Padded(n)| == if |Decimal(n)| < 4 then 4 else |Decimal(n)|
    ensures Decimal(n) <= Padded(n)[|Padded(n)| - |Decimal(n)|..]
    ensures forall k :: 0 <= k < |Padded(n)| - |Decimal(n)| ==> Padded(n)[k] == '0'
    ensures NumberOf(Padded(n), 10) == n
  {
    hide NumberOf, Decimal;
    var s := Decimal(n);
    DecimalDigits(n);
    if |s| < 4 {
      ZerosInFront(4 - |s|, s, 10);
      assert Padded(n)[4 - |s|..] == s;
    } else {
      assert Padded(n)[0..] == s;
    }
  }
}
