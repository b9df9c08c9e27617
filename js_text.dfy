/** The ECMAScript string built-ins the screens rely on: `String.prototype.trim`
    (section 22.1.3.32 of ECMA-262), `String.prototype.length` (UTF-16 code units),
    the global `parseInt` (section 19.2.5) called without a radix, and the decimal
    rendering of an integer Number used by template literals (section 6.1.6.1.20). */
module JsText {
  import opened JsValues

  /** WhiteSpace (section 12.2) or LineTerminator (section 12.3) code points: the
      characters that `trim` removes and that `parseInt` skips. */
  predicate IsWhiteSpace(c: char)
  {
    c == '\t' || c == '\n' || c == '\U{000B}' || c == '\U{000C}' || c == '\r' || c == ' '
    || c == '\U{00A0}' || c == '\U{1680}' || ('\U{2000}' <= c <= '\U{200A}')
    || c == '\U{2028}' || c == '\U{2029}' || c == '\U{202F}' || c == '\U{205F}'
    || c == '\U{3000}' || c == '\U{FEFF}'
  }

  ghost predicate AllWhiteSpace(s: string)
  {
    forall i | 0 <= i < |s| :: IsWhiteSpace(s[i])
  }

  /** TrimString(s, start): drop the leading white space, nothing else. */
  function TrimStart(s: string): (r: string)
    ensures |r| <= |s| && r == s[|s| - |r|..]
    ensures forall i | 0 <= i < |s| - |r| :: IsWhiteSpace(s[i])
    ensures r == [] || !IsWhiteSpace(r[0])
  {
    if s != [] && IsWhiteSpace(s[0]) then TrimStart(s[1..]) else s
  }

  /** TrimString(s, end): drop the trailing white space, nothing else. */
  function TrimEnd(s: string): (r: string)
    ensures |r| <= |s| && r == s[..|r|]
    ensures forall i | |r| <= i < |s| :: IsWhiteSpace(s[i])
    ensures r == [] || !IsWhiteSpace(r[|r| - 1])
  {
    if s != [] && IsWhiteSpace(s[|s| - 1]) then TrimEnd(s[..|s| - 1]) else s
  }

  /** `s.trim()`: the text between the leading and the trailing white space. It is
      empty exactly when every character of `s` is white space. */
  function Trim(s: string): (r: string)
    ensures r == [] <==> AllWhiteSpace(s)
    ensures r != [] ==> !IsWhiteSpace(r[0]) && !IsWhiteSpace(r[|r| - 1])
  {
    TrimEnd(TrimStart(s))
  }

  /** `s.trim() === ''`, the emptiness test of the login and registration forms. */
  predicate IsBlank(s: string)
    ensures IsBlank(s) <==> AllWhiteSpace(s)
  {
    Trim(s) == ""
  }

  /** `s.length`: the number of UTF-16 code units, two for a code point above U+FFFF. */
  function CodeUnitLength(s: string): (n: nat)
    ensures |s| <= n <= 2 * |s|
    ensures (forall i | 0 <= i < |s| :: s[i] as int < 0x1_0000) ==> n == |s|
    ensures (forall i | 0 <= i < |s| :: s[i] as int >= 0x1_0000) ==> n == 2 * |s|
  {
    if s == [] then 0
    else CodeUnitLength(s[..|s| - 1]) + (if s[|s| - 1] as int < 0x1_0000 then 1 else 2)
  }

  /** Leading white space never matters to `trim`. */
  lemma {:induction false} TrimStartSkipsWhiteSpace(w: string, s: string)
    requires AllWhiteSpace(w)
    ensures TrimStart(w + s) == TrimStart(s)
  {
    if w == [] {
      assert w + s == s;
    } else {
      assert (w + s)[0] == w[0];
      assert (w + s)[1..] == w[1..] + s;
      TrimStartSkipsWhiteSpace(w[1..], s);
    }
  }

  // ---------------------------------------------------------------- digits

  predicate IsDecimalDigit(c: char)
  {
    '0' <= c <= '9'
  }

  /** The value of `c` as a digit of radix up to 36 (`0`-`9`, then `a`-`z` or `A`-`Z`
      for 10 to 35), and 36 for a character that is a digit in no radix. */
  function DigitValue(c: char): (d: nat)
    ensures d <= 36
    ensures d < 10 <==> IsDecimalDigit(c)
  {
    if '0' <= c <= '9' then c as int - '0' as int
    else if 'a' <= c <= 'z' then c as int - 'a' as int + 10
    else if 'A' <= c <= 'Z' then c as int - 'A' as int + 10
    else 36
  }

  predicate IsRadixDigit(c: char, radix: nat)
  {
    DigitValue(c) < radix
  }

  /** The length of the longest prefix of `s` made of radix-`radix` digits. */
  function DigitRun(s: string, radix: nat): (k: nat)
    ensures k <= |s|
    ensures forall i | 0 <= i < k :: IsRadixDigit(s[i], radix)
    ensures k < |s| ==> !IsRadixDigit(s[k], radix)
  {
    if s != [] && IsRadixDigit(s[0], radix) then 1 + DigitRun(s[1..], radix) else 0
  }

  /** The integer a string of digits denotes in the given radix, most significant first. */
  function ValueOf(digits: string, radix: nat): nat
  {
    if digits == [] then 0
    else ValueOf(digits[..|digits| - 1], radix) * radix + DigitValue(digits[|digits| - 1])
  }

  /** `parseInt(input)` with no radix argument; None stands for NaN. A result of -0
      (from "-0") is the integer 0: it compares and serialises as 0. */
  function ParseInt(input: string): Option<int>
  {
    ParseTrimmed(TrimStart(input))
  }

  /** `parseInt` once the leading white space is gone: an optional sign, then the
      magnitude. */
  function ParseTrimmed(s: string): Option<int>
  {
    if s != [] && (s[0] == '-' || s[0] == '+') then
      match ParseMagnitude(s[1..])
      case None => None
      case Some(m) =>
        var signed: int := if s[0] == '-' then -(m as int) else m;
        Some(signed)
    else
      ParseMagnitude(s)
  }

  /** The unsigned part: a "0x" or "0X" prefix selects radix 16, otherwise radix 10;
      then the longest run of digits of that radix, NaN when it is empty. */
  function ParseMagnitude(s: string): Option<nat>
  {
    var hex := |s| >= 2 && s[0] == '0' && (s[1] == 'x' || s[1] == 'X');
    var radix := if hex then 16 else 10;
    var digits := if hex then s[2..] else s;
    var end := DigitRun(digits, radix);
    if end == 0 then None else Some(ValueOf(digits[..end], radix))
  }

  // ------------------------------------------------- rendering integers

  function DecimalDigit(d: nat): (c: char)
    requires d < 10
    ensures IsDecimalDigit(c) && DigitValue(c) == d
  {
    ('0' as int + d) as char
  }

  /** The shortest decimal numeral of `n`: digits only, no leading zero, and it
      denotes `n`. */
  function NatString(n: nat): (r: string)
    ensures |r| >= 1
    ensures forall i | 0 <= i < |r| :: IsDecimalDigit(r[i])
    ensures r[0] == '0' <==> n == 0
    ensures ValueOf(r, 10) == n
  {
    if n < 10 then [DecimalDigit(n)]
    else
      var r := NatString(n / 10) + [DecimalDigit(n % 10)];
      assert r[..|r| - 1] == NatString(n / 10);
      r
  }

  /** Number::toString(n) for an integer-valued Number below 10^21 in magnitude,
      which is how `${n}` renders it. */
  function DecimalString(n: int): (r: string)
    ensures |r| >= 1 && (r[0] == '-' <==> n < 0)
  {
    if n < 0 then "-" + NatString(-n) else NatString(n)
  }

  /** The digit run is the one `k` such that every character before `k` is a digit
      and the one at `k`, if any, is not. */
  lemma {:induction false} DigitRunIs(s: string, radix: nat, k: nat)
    requires k <= |s|
    requires forall i | 0 <= i < k :: IsRadixDigit(s[i], radix)
    requires k < |s| ==> !IsRadixDigit(s[k], radix)
    ensures DigitRun(s, radix) == k
  {
    if k > 0 {
      assert IsRadixDigit(s[0], radix);
      assert forall i | 0 <= i < k - 1 :: s[1..][i] == s[i + 1];
      DigitRunIs(s[1..], radix, k - 1);
    }
  }

  /** A run of radix digits followed by anything that is not such a digit stops
      exactly there. */
  lemma DigitRunStops(digits: string, rest: string, radix: nat)
    requires forall i | 0 <= i < |digits| :: IsRadixDigit(digits[i], radix)
    requires rest == [] || !IsRadixDigit(rest[0], radix)
    ensures DigitRun(digits + rest, radix) == |digits|
  {
    var s := digits + rest;
    assert forall i | 0 <= i < |digits| :: s[i] == digits[i];
    assert |digits| < |s| ==> s[|digits|] == rest[0];
    DigitRunIs(s, radix, |digits|);
  }

  /** Without a "0x" prefix, the unsigned part is the decimal value of its digits,
      leading zeros included: "007" gives 7. */
  lemma MagnitudeOfDigits(digits: string, rest: string)
    requires digits != [] && forall i | 0 <= i < |digits| :: IsDecimalDigit(digits[i])
    requires rest == [] || !IsDecimalDigit(rest[0])
    requires digits == "0" && rest != [] ==> rest[0] != 'x' && rest[0] != 'X'
    ensures ParseMagnitude(digits + rest) == Some(ValueOf(digits, 10))
  {
    var s := digits + rest;
    assert !(|s| >= 2 && s[0] == '0' && (s[1] == 'x' || s[1] == 'X')) by {
      if |s| >= 2 && s[0] == '0' {
        if |digits| >= 2 {
          assert s[1] == digits[1];
        } else {
          assert digits == [s[0]] == "0";
          assert s[1] == rest[0];
        }
      }
    }
    DigitRunStops(digits, rest, 10);
    assert s[..|digits|] == digits;
  }

  /** `parseInt` on decimal digits followed by text that is not a digit reads the
      digits' decimal value, leading zeros included: "007px" gives 7. */
  lemma ParseIntOfDigits(digits: string, rest: string)
    requires digits != [] && forall i | 0 <= i < |digits| :: IsDecimalDigit(digits[i])
    requires rest == [] || !IsDecimalDigit(rest[0])
    requires digits == "0" && rest != [] ==> rest[0] != 'x' && rest[0] != 'X'
    ensures ParseInt(digits + rest) == Some(ValueOf(digits, 10))
  {
    MagnitudeOfDigits(digits, rest);
    assert (digits + rest)[0] == digits[0];
    ParseIntOfMagnitude(digits + rest, ValueOf(digits, 10));
  }

  /** Text starting with a digit is read by the unsigned part alone. */
  lemma ParseIntOfMagnitude(t: string, m: nat)
    requires t != [] && IsDecimalDigit(t[0])
    requires ParseMagnitude(t) == Some(m)
    ensures ParseInt(t) == Some(m)
  {
    TrimStartKeeps(t);
  }

  /** A sign in front of the unsigned part applies to its value: "+90" gives 90
      and "-007" gives -7. */
  lemma ParseIntOfSign(s: string, m: nat)
    requires s != [] && (s[0] == '+' || s[0] == '-')
    requires ParseMagnitude(s[1..]) == Some(m)
    ensures ParseInt(s) == Some(if s[0] == '-' then -(m as int) else m)
  {
    TrimStartKeeps(s);
  }

  lemma DropPrefix(p: string, t: string)
    ensures (p + t)[|p|..] == t
  {
  }

  /** A "0x" or "0X" prefix followed by hexadecimal digits and text that is not a
      hexadecimal digit gives the hexadecimal value of the digits. */
  lemma ParseIntOfHex(x: char, digits: string, rest: string)
    requires x == 'x' || x == 'X'
    requires digits != [] && forall i | 0 <= i < |digits| :: IsRadixDigit(digits[i], 16)
    requires rest == [] || !IsRadixDigit(rest[0], 16)
    ensures ParseInt(['0', x] + (digits + rest)) == Some(ValueOf(digits, 16))
  {
    HexMagnitude(x, digits, rest);
    ParseIntOfMagnitude(['0', x] + (digits + rest), ValueOf(digits, 16));
  }

  lemma HexMagnitude(x: char, digits: string, rest: string)
    requires x == 'x' || x == 'X'
    requires digits != [] && forall i | 0 <= i < |digits| :: IsRadixDigit(digits[i], 16)
    requires rest == [] || !IsRadixDigit(rest[0], 16)
    ensures (['0', x] + (digits + rest))[0] == '0'
    ensures ParseMagnitude(['0', x] + (digits + rest)) == Some(ValueOf(digits, 16))
  {
    var s := ['0', x] + (digits + rest);
    assert s[0] == '0' && s[1] == x;
    DropPrefix(['0', x], digits + rest);
    DigitRunStops(digits, rest, 16);
    assert (digits + rest)[..|digits|] == digits;
  }

  /** `parseInt` reads back the decimal numeral of every integer, whatever follows it,
      provided what follows is not a digit and does not turn a leading "0" into the
      hexadecimal prefix "0x". So "90abc" gives 90 and "180" gives 180. */
  lemma ParseIntOfDecimal(n: int, rest: string)
    requires rest == [] || !IsDecimalDigit(rest[0])
    requires n == 0 && rest != [] ==> rest[0] != 'x' && rest[0] != 'X'
    ensures ParseInt(DecimalString(n) + rest) == Some(n)
  {
    if n < 0 {
      ParseIntOfNegative(n, rest);
    } else {
      ParseIntOfNumeral(n, rest);
    }
  }

  /** The round trip for a non-negative integer. */
  lemma ParseIntOfNumeral(n: int, rest: string)
    requires n >= 0
    requires rest == [] || !IsDecimalDigit(rest[0])
    requires n == 0 && rest != [] ==> rest[0] != 'x' && rest[0] != 'X'
    ensures ParseInt(DecimalString(n) + rest) == Some(n)
  {
    var s := DecimalString(n) + rest;
    assert s == NatString(n) + rest;
    MagnitudeOfNumeral(n, rest);
    assert s[0] == NatString(n)[0];
    ParseIntOfMagnitude(s, n);
  }

  /** The round trip for a negative integer: its numeral is a `-` sign followed by
      the numeral of its magnitude. */
  lemma ParseIntOfNegative(n: int, rest: string)
    requires n < 0
    requires rest == [] || !IsDecimalDigit(rest[0])
    ensures ParseInt(DecimalString(n) + rest) == Some(n)
  {
    NegativeMagnitude(n, rest);
    ParseIntOfSign(DecimalString(n) + rest, -n);
  }

  /** After its `-` sign, a negative numeral is the numeral of the magnitude. */
  lemma NegativeMagnitude(n: int, rest: string)
    requires n < 0
    requires rest == [] || !IsDecimalDigit(rest[0])
    ensures DecimalString(n) + rest != [] && (DecimalString(n) + rest)[0] == '-'
    ensures ParseMagnitude((DecimalString(n) + rest)[1..]) == Some(-n)
  {
    NegativeNumeral(n, rest);
    MagnitudeOfNumeral(-n, rest);
  }

  lemma NegativeNumeral(n: int, rest: string)
    requires n < 0
    ensures DecimalString(n) + rest != [] && (DecimalString(n) + rest)[0] == '-'
    ensures (DecimalString(n) + rest)[1..] == NatString(-n) + rest
  {
    var s := DecimalString(n) + rest;
    assert s == ['-'] + (NatString(-n) + rest);
  }

  lemma TrimStartKeeps(s: string)
    requires s != [] && !IsWhiteSpace(s[0])
    ensures TrimStart(s) == s
  {
  }

  lemma MagnitudeOfNumeral(m: nat, rest: string)
    requires rest == [] || !IsDecimalDigit(rest[0])
    requires m == 0 && rest != [] ==> rest[0] != 'x' && rest[0] != 'X'
    ensures ParseMagnitude(NatString(m) + rest) == Some(m)
  {
    assert NatString(m) == "0" ==> m == 0;
    MagnitudeOfDigits(NatString(m), rest);
  }

  /** Leading white space is skipped: "  90" parses like "90". */
  lemma ParseIntSkipsWhiteSpace(w: string, s: string)
    requires AllWhiteSpace(w)
    ensures ParseInt(w + s) == ParseInt(s)
  {
    TrimStartSkipsWhiteSpace(w, s);
  }

  /** Trailing text after the digits is ignored: "90abc" is 90. */
  lemma ParseIntIgnoresTrailingText()
    ensures ParseInt("90abc") == Some(90)
  {
    assert DecimalString(90) == "90";
    assert "90abc" == DecimalString(90) + "abc";
    ParseIntOfDecimal(90, "abc");
  }

  /** The "0x" prefix switches to radix 16: "0x10" is 16. */
  lemma ParseIntReadsHexPrefix()
    ensures ParseInt("0x10") == Some(16)
  {
    var s := "0x10";
    TrimStartKeeps(s);
    assert s[2..] == "10";
    assert DigitRun("10", 16) == 2;
    assert ValueOf("10", 16) == 16 by {
      assert "10"[..1] == "1";
    }
    assert "10"[..2] == "10";
    assert ParseMagnitude(s) == Some(16);
    assert ParseTrimmed(s) == Some(16);
  }

  /** A plus sign is accepted: "+90" is 90. */
  lemma ParseIntReadsPlusSign()
    ensures ParseInt("+90") == Some(90)
  {
    var ninety := "90";
    assert ValueOf(ninety, 10) == 90 by {
      assert ninety[..1] == "9";
    }
    assert forall i | 0 <= i < |ninety| :: IsDecimalDigit(ninety[i]);
    MagnitudeOfDigits(ninety, []);
    assert ninety + [] == ninety;
    var s := "+90";
    assert s[0] == '+' && s[1..] == ninety;
    ParseIntOfSign(s, 90);
  }

  /** Leading zeros are accepted: "007" is 7. */
  lemma ParseIntReadsLeadingZeros()
    ensures ParseInt("007") == Some(7)
  {
    var zeros := "007";
    assert ValueOf(zeros, 10) == 7 by {
      assert zeros[..2] == "00";
      assert "00"[..1] == "0";
    }
    assert |zeros| == 3;
    assert forall i | 0 <= i < |zeros| :: IsDecimalDigit(zeros[i]);
    ParseIntOfDigits(zeros, []);
    assert zeros + [] == "007";
  }

  /** Where the unsigned part begins there is no digit to read: the text is empty,
      starts with something other than a decimal digit, or is a `0x`/`0X` prefix
      with no hexadecimal digit after it. */
  predicate NoDigitAhead(t: string)
  {
    t == [] || !IsDecimalDigit(t[0])
    || (|t| >= 2 && t[0] == '0' && (t[1] == 'x' || t[1] == 'X') && (|t| == 2 || !IsRadixDigit(t[2], 16)))
  }

  /** Once the leading white space is gone, no number follows: after a sign, or
      with no sign, there is no digit to read. */
  predicate NoNumberAhead(t: string)
  {
    if t != [] && (t[0] == '+' || t[0] == '-') then NoDigitAhead(t[1..]) else NoDigitAhead(t)
  }

  /** The unsigned part is NaN exactly when there is no digit to read. */
  lemma MagnitudeWithoutDigits(t: string)
    ensures ParseMagnitude(t) == None <==> NoDigitAhead(t)
  {
    if |t| >= 2 && t[0] == '0' && (t[1] == 'x' || t[1] == 'X') {
      assert |t| > 2 ==> t[2..][0] == t[2];
    }
  }

  /** A sign followed by no digit is NaN: "-", "+abc", "-0x". */
  lemma SignedWithoutDigits(s: string)
    requires s != [] && (s[0] == '+' || s[0] == '-')
    requires NoDigitAhead(s[1..])
    ensures ParseInt(s) == None
  {
    TrimStartKeeps(s);
    MagnitudeWithoutDigits(s[1..]);
  }

  /** Text that starts with no white space, no sign and no digit, or is a bare
      `0x` prefix, is NaN: "", "abc", "0xg". */
  lemma UnsignedWithoutDigits(s: string)
    requires s == [] || (!IsWhiteSpace(s[0]) && s[0] != '+' && s[0] != '-')
    requires NoDigitAhead(s)
    ensures ParseInt(s) == None
  {
    if s == [] {
      assert TrimStart(s) == s;
    } else {
      TrimStartKeeps(s);
    }
    MagnitudeWithoutDigits(s);
  }

  /** Leading white space, then text with no number at its start, is NaN. */
  lemma ParseIntWithoutDigits(w: string, s: string)
    requires AllWhiteSpace(w)
    requires s == [] || !IsWhiteSpace(s[0])
    requires NoNumberAhead(s)
    ensures ParseInt(w + s) == None
  {
    ParseIntSkipsWhiteSpace(w, s);
    if s != [] && (s[0] == '+' || s[0] == '-') {
      SignedWithoutDigits(s);
    } else {
      UnsignedWithoutDigits(s);
    }
  }

  /** `parseInt` is NaN exactly when no number follows the leading white space. */
  lemma ParseIntIsNaN(s: string)
    ensures ParseInt(s) == None <==> NoNumberAhead(TrimStart(s))
  {
    var t := TrimStart(s);
    if t != [] && (t[0] == '+' || t[0] == '-') {
      MagnitudeWithoutDigits(t[1..]);
    } else {
      MagnitudeWithoutDigits(t);
    }
  }

  /** A prefix with no digit after it is NaN: "0x". */
  lemma ParseIntOfBarePrefix()
    ensures ParseInt("0x") == None
  {
    TrimStartKeeps("0x");
    assert "0x"[2..] == [];
    assert ParseTrimmed("0x") == ParseMagnitude("0x") == None;
  }

  /** A sign with no digit after it is NaN: "-". */
  lemma ParseIntOfBareSign()
    ensures ParseInt("-") == None
  {
    TrimStartKeeps("-");
    assert "-"[1..] == [];
    assert ParseMagnitude([]) == None;
  }

  /** The empty text is NaN. */
  lemma ParseIntOfEmpty()
    ensures ParseInt("") == None
  {
    assert TrimStart("") == "";
  }
}
