/**
  Decimal rendering of integers (`String(n)`, template interpolation) and
  JavaScript's `parseInt` without a radix argument, which the pages use on
  `data-price` attributes, `data-rating` attributes, radio values and the
  hour of an "HH:MM" time.
 */
module Numbers {

  import opened Common
  import Text

  predicate IsDigit(c: char)
  {
    '0' <= c <= '9'
  }

  predicate IsHexDigit(c: char)
  {
    IsDigit(c) || 'a' <= c <= 'f' || 'A' <= c <= 'F'
  }

  predicate AllDigits(s: string)
  {
    forall i :: 0 <= i < |s| ==> IsDigit(s[i])
  }

  predicate AllHexDigits(s: string)
  {
    forall i :: 0 <= i < |s| ==> IsHexDigit(s[i])
  }

  function DigitChar(d: nat): (c: char)
    requires d < 10
    ensures IsDigit(c)
  {
    ('0' as int + d) as char
  }

  function HexDigitValue(c: char): nat
    requires IsHexDigit(c)
  {
    if IsDigit(c) then c as int - '0' as int
    else if 'a' <= c <= 'f' then c as int - 'a' as int + 10
    else c as int - 'A' as int + 10
  }

  /** Value of a run of digits read in the given base (10 or 16). */
  function ValueIn(s: string, base: nat): nat
    requires AllHexDigits(s)
  {
    if s == [] then 0 else ValueIn(s[..|s| - 1], base) * base + HexDigitValue(s[|s| - 1])
  }

  /** `String(n)` for a natural number: no sign, no leading zero. */
  function NatToString(n: nat): (s: string)
    ensures |s| >= 1 && AllDigits(s)
    ensures |s| > 1 ==> s[0] != '0'
  {
    if n < 10 then [DigitChar(n)] else NatToString(n / 10) + [DigitChar(n % 10)]
  }

  /** `String(i)` for an integer. */
  function IntToString(i: int): string
  {
    if i < 0 then "-" + NatToString(-i) else NatToString(i)
  }

  lemma {:induction false} NatToStringValue(n: nat)
    ensures ValueIn(NatToString(n), 10) == n
    decreases n
  {
    if n >= 10 {
      var s := NatToString(n);
      assert s[..|s| - 1] == NatToString(n / 10);
      NatToStringValue(n / 10);
    }
  }

  /** The longest prefix of `s` made of digits of the chosen base. */
  function DigitPrefix(s: string, hex: bool): (d: string)
    ensures |d| <= |s| && d == s[..|d|] && AllHexDigits(d)
    ensures !hex ==> AllDigits(d)
    ensures |d| < |s| ==> !(if hex then IsHexDigit(s[|d|]) else IsDigit(s[|d|]))
  {
    if s != [] && (if hex then IsHexDigit(s[0]) else IsDigit(s[0]))
    then [s[0]] + DigitPrefix(s[1..], hex)
    else []
  }

  /**
    The unsigned part of `parseInt`: base 16 after "0x"/"0X", otherwise base
    10, reading the longest run of digits. `None` when no digit follows.
   */
  function ParseMagnitude(u: string): (r: Option<nat>)
    ensures r.None? <==>
      var hex := |u| >= 2 && u[0] == '0' && (u[1] == 'x' || u[1] == 'X');
      var body := if hex then u[2..] else u;
      body == [] || !(if hex then IsHexDigit(body[0]) else IsDigit(body[0]))
  {
    var hex := |u| >= 2 && u[0] == '0' && (u[1] == 'x' || u[1] == 'X');
    var body := if hex then u[2..] else u;
    var digits := DigitPrefix(body, hex);
    if digits == [] then None else Some(ValueIn(digits, if hex then 16 else 10))
  }

  /**
    `parseInt(s)`: skip leading white space, read an optional sign, then the
    magnitude. `None` is `NaN`.
   */
  function ParseInt(s: string): (r: Option<int>)
    ensures var t := Text.TrimStart(s);
      r.None? <==> ParseMagnitude(if t != [] && (t[0] == '-' || t[0] == '+') then t[1..] else t).None?
    ensures var t := Text.TrimStart(s);
      r.Some? && r.value < 0 ==> t != [] && t[0] == '-'
  {
    ParseSigned(Text.TrimStart(s))
  }

  /** `parseInt` after the white space: an optional sign, then the magnitude. */
  function ParseSigned(t: string): (r: Option<int>)
    ensures r.None? <==> ParseMagnitude(if t != [] && (t[0] == '-' || t[0] == '+') then t[1..] else t).None?
    ensures r.Some? && r.value < 0 ==> t != [] && t[0] == '-'
  {
    var negative := t != [] && t[0] == '-';
    var u := if t != [] && (t[0] == '-' || t[0] == '+') then t[1..] else t;
    match ParseMagnitude(u)
    case None => None
    case Some(v) => Some(if negative then -(v as int) else v)
  }

  /** In either base, the digit prefix of a digit run followed by a non-digit is that run. */
  lemma {:induction false} DigitPrefixOfRun(s: string, rest: string, hex: bool)
    requires if hex then AllHexDigits(s) else AllDigits(s)
    requires rest == [] || !(if hex then IsHexDigit(rest[0]) else IsDigit(rest[0]))
    ensures DigitPrefix(s + rest, hex) == s
    decreases |s|
  {
    if s == [] {
      assert s + rest == rest;
    } else {
      assert (s + rest)[1..] == s[1..] + rest;
      assert (s + rest)[0] == s[0];
      DigitPrefixOfRun(s[1..], rest, hex);
      assert s == [s[0]] + s[1..];
    }
  }

  /**
    A run of decimal digits (leading zeros allowed), followed by a
    non-digit, reads as its decimal value, unless it is a lone "0" that an
    "x" turns into the hexadecimal prefix.
   */
  lemma MagnitudeOfDigits(digits: string, rest: string)
    requires |digits| >= 1 && AllDigits(digits)
    requires rest == [] || !IsDigit(rest[0])
    requires digits == "0" ==> rest == [] || (rest[0] != 'x' && rest[0] != 'X')
    ensures ParseMagnitude(digits + rest) == Some(ValueIn(digits, 10))
  {
    var u := digits + rest;
    assert u[0] == digits[0];
    if |digits| >= 2 {
      assert u[1] == digits[1] && IsDigit(u[1]);
    } else if |u| >= 2 {
      assert u[1] == rest[0];
      assert u[0] == '0' ==> digits == "0";
    }
    assert !(|u| >= 2 && u[0] == '0' && (u[1] == 'x' || u[1] == 'X'));
    DigitPrefixOfRun(digits, rest, false);
  }

  /** After "0x" or "0X", a run of hexadecimal digits followed by a non-hex-digit reads as its base-16 value. */
  lemma MagnitudeOfHex(prefix: string, digits: string, rest: string)
    requires |prefix| == 2 && prefix[0] == '0' && (prefix[1] == 'x' || prefix[1] == 'X')
    requires |digits| >= 1 && AllHexDigits(digits)
    requires rest == [] || !IsHexDigit(rest[0])
    ensures ParseMagnitude(prefix + (digits + rest)) == Some(ValueIn(digits, 16))
  {
    var body := digits + rest;
    var u := prefix + body;
    assert u[0] == '0' && u[1] == prefix[1];
    assert u[2..] == body;
    DigitPrefixOfRun(digits, rest, true);
  }

  /** A sign, or a digit when there is none, is not white space. */
  lemma SignedTextStart(sign: string, u: string)
    requires sign == "" || sign == "-" || sign == "+"
    requires u != [] && IsDigit(u[0])
    ensures (sign + u)[0] == (if sign == "" then u[0] else sign[0])
    ensures !Text.IsSpace((sign + u)[0])
    ensures sign == "" ==> u[0] != '-' && u[0] != '+'
  {
  }

  /** The magnitude with the sign in front of it applied. */
  function Signed(sign: string, v: nat): int
  {
    if sign == "-" then -(v as int) else v
  }

  /** After the white space: an optional sign, then the magnitude, negated only after "-". */
  lemma ParseSignedParts(sign: string, u: string, v: nat)
    requires sign == "" || sign == "-" || sign == "+"
    requires sign == "" ==> u == [] || (u[0] != '-' && u[0] != '+')
    requires ParseMagnitude(u) == Some(v)
    ensures ParseSigned(sign + u) == Some(Signed(sign, v))
  {
    var t := sign + u;
    if sign == "" {
      assert t == u;
    } else {
      assert t[0] == sign[0] && t[1..] == u;
    }
  }

  /** Text that does not start with white space is read as it stands. */
  lemma ParseIntOfUnspaced(t: string)
    requires t == [] || !Text.IsSpace(t[0])
    ensures ParseInt(t) == ParseSigned(t)
  {
    Text.TrimStartAfterSpace([], t);
    assert [] + t == t;
  }

  /** A sign followed by a magnitude that starts with a digit reads as the signed magnitude. */
  lemma SignedValue(sign: string, u: string, v: nat)
    requires sign == "" || sign == "-" || sign == "+"
    requires u != [] && IsDigit(u[0])
    requires ParseMagnitude(u) == Some(v)
    ensures ParseInt(sign + u) == Some(Signed(sign, v))
  {
    SignedTextStart(sign, u);
    ParseIntOfUnspaced(sign + u);
    ParseSignedParts(sign, u, v);
  }

  /** Leading white space never changes what `parseInt` reads. */
  lemma ParseIntSkipsSpace(ws: string, t: string)
    requires Text.AllSpace(ws)
    requires t == [] || !Text.IsSpace(t[0])
    ensures ParseInt(ws + t) == ParseInt(t)
  {
    Text.TrimStartAfterSpace(ws, t);
    ParseIntOfUnspaced(t);
  }

  /**
    The decimal case of `parseInt`: an optional sign, a digit run that may
    start with zeros (so "09" reads as 9), then anything that is not a digit.
   */
  lemma ParseIntDecimal(sign: string, digits: string, rest: string)
    requires sign == "" || sign == "-" || sign == "+"
    requires |digits| >= 1 && AllDigits(digits)
    requires rest == [] || !IsDigit(rest[0])
    requires digits == "0" ==> rest == [] || (rest[0] != 'x' && rest[0] != 'X')
    ensures ParseInt(sign + (digits + rest)) ==
      Some(Signed(sign, ValueIn(digits, 10)))
  {
    var u := digits + rest;
    assert u[0] == digits[0];
    MagnitudeOfDigits(digits, rest);
    SignedValue(sign, u, ValueIn(digits, 10));
  }

  /** The hexadecimal case: an optional sign, "0x" or "0X", then a run of hex digits. */
  lemma ParseIntHex(sign: string, prefix: string, digits: string, rest: string)
    requires sign == "" || sign == "-" || sign == "+"
    requires |prefix| == 2 && prefix[0] == '0' && (prefix[1] == 'x' || prefix[1] == 'X')
    requires |digits| >= 1 && AllHexDigits(digits)
    requires rest == [] || !IsHexDigit(rest[0])
    ensures ParseInt(sign + (prefix + (digits + rest))) ==
      Some(Signed(sign, ValueIn(digits, 16)))
  {
    var u := prefix + (digits + rest);
    var v := ValueIn(digits, 16);
    assert u[0] == '0';
    MagnitudeOfHex(prefix, digits, rest);
    SignedValue(sign, u, v);
  }

  /** A zero-padded hour reads as its value. */
  lemma ParseIntPadded()
    ensures ParseInt("09") == Some(9)
  {
    var d := "09";
    assert AllDigits(d);
    assert ValueIn(d, 10) == 9 by {
      assert d[..1] == "0";
    }
    ParseIntDecimal("", d, "");
    assert "" + (d + "") == "09";
  }

  /** A minus sign and a hexadecimal prefix. */
  lemma ParseIntNegativeHex()
    ensures ParseInt("-0x1F") == Some(-31)
  {
    var d := "1F";
    assert AllHexDigits(d);
    assert ValueIn(d, 16) == 31 by {
      assert d[..1] == "1";
    }
    ParseIntHex("-", "0x", d, "");
    assert "-" + ("0x" + (d + "")) == "-0x1F";
  }

  lemma ParseIntUnsigned(u: string, v: nat)
    requires u != [] && !Text.IsSpace(u[0]) && u[0] != '-' && u[0] != '+'
    requires ParseMagnitude(u) == Some(v)
    ensures ParseInt(u) == Some(v)
  {
    assert Text.TrimStart(u) == u;
  }

  lemma ParseIntNegative(u: string, v: nat)
    requires ParseMagnitude(u) == Some(v)
    ensures ParseInt("-" + u) == Some(-(v as int))
  {
    var t := "-" + u;
    assert t[0] == '-';
    assert t[1..] == u;
    ParseIntOfMinus(t, v);
  }

  lemma ParseIntOfMinus(t: string, v: nat)
    requires t != [] && t[0] == '-'
    requires ParseMagnitude(t[1..]) == Some(v)
    ensures ParseInt(t) == Some(-(v as int))
  {
    var trimmed := Text.TrimStart(t);
    assert !Text.IsSpace(t[0]);
    assert trimmed == t;
  }

  /**
    `parseInt` reads back what `String` wrote, and stops at the first
    character that is not a digit, so trailing text such as ":30" is ignored.
    (An "x" right after a lone "0" would instead switch to base 16.)
   */
  lemma ParseIntOfIntToString(i: int, rest: string)
    requires rest == [] || !(IsDigit(rest[0]) || rest[0] == 'x' || rest[0] == 'X')
    ensures ParseInt(IntToString(i) + rest) == Some(i)
  {
    var n: nat := if i < 0 then -i else i;
    var digits := NatToString(n);
    var u := digits + rest;
    MagnitudeOfDigits(digits, rest);
    NatToStringValue(n);
    if i < 0 {
      assert IntToString(i) + rest == "-" + u;
      ParseIntNegative(u, n);
    } else {
      assert IntToString(i) + rest == u;
      assert u[0] == digits[0];
      ParseIntUnsigned(u, n);
    }
  }

  /** A run of decimal digits without a leading zero. */
  predicate Canonical(s: string)
  {
    |s| >= 1 && AllDigits(s) && (|s| > 1 ==> s[0] != '0')
  }

  lemma {:induction false} ValuePositive(s: string)
    requires |s| >= 1 && AllDigits(s) && s[0] != '0'
    ensures ValueIn(s, 10) >= 1
    decreases |s|
  {
    if |s| > 1 {
      ValuePositive(s[..|s| - 1]);
    }
  }

  /** `String` writes back exactly the canonical digit run `parseInt` read. */
  lemma {:induction false} NatToStringOfValue(s: string)
    requires Canonical(s)
    ensures NatToString(ValueIn(s, 10)) == s
    decreases |s|
  {
    if |s| > 1 {
      var init := s[..|s| - 1];
      ValuePositive(init);
      NatToStringOfValue(init);
      var v := ValueIn(s, 10);
      assert v / 10 == ValueIn(init, 10) && v % 10 == HexDigitValue(s[|s| - 1]);
      assert s == init + [s[|s| - 1]];
    }
  }

  /** `parseInt(String(i)) == i`. */
  lemma ParseIntOfString(i: int)
    ensures ParseInt(IntToString(i)) == Some(i)
  {
    ParseIntOfIntToString(i, "");
    assert IntToString(i) + "" == IntToString(i);
  }
}
