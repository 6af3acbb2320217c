/** Decimal text of integers: Python's `str(int)` and `int(str)`. */
module Decimal {
  import opened Wrappers
  import opened Text

  predicate IsDigit(c: char)
  {
    '0' <= c <= '9'
  }

  predicate AllDigits(s: string)
  {
    forall i :: 0 <= i < |s| ==> IsDigit(s[i])
  }

  function DigitChar(d: nat): (c: char)
    requires d < 10
    ensures IsDigit(c)
  {
    ('0' as int + d) as char
  }

  function DigitValue(c: char): (d: nat)
    requires IsDigit(c)
    ensures d < 10 && DigitChar(d) == c
  {
    c as int - '0' as int
  }

  function Pow10(k: nat): (p: nat)
    ensures p >= 1
  {
    if k == 0 then 1 else 10 * Pow10(k - 1)
  }

  /** `str(n)` for a natural number: its digits, with no leading zero. */
  function NatToText(n: nat): (r: string)
    ensures |r| >= 1 && AllDigits(r)
    ensures |r| > 1 ==> r[0] != '0'
    decreases n
  {
    if n < 10 then [DigitChar(n)] else NatToText(n / 10) + [DigitChar(n % 10)]
  }

  /** `str(i)`: a minus sign before the digits of a negative number. */
  function IntToText(i: int): string
  {
    if i < 0 then "-" + NatToText(-i) else NatToText(i)
  }

  /** The number a text of digits denotes; leading zeros are allowed. */
  function DigitsValue(s: string): nat
    requires AllDigits(s)
    decreases |s|
  {
    if |s| == 0 then 0 else DigitsValue(s[..|s| - 1]) * 10 + DigitValue(s[|s| - 1])
  }

  /** The ASCII characters `int()` skips around a number: space, tab, newline, vertical tab, form feed, return. */
  predicate IsSpace(c: char)
  {
    c == ' ' || '\t' <= c <= '\r'
  }

  /** `s` without its leading spaces. */
  function TrimStart(s: string): (r: string)
    ensures |r| > 0 ==> !IsSpace(r[0])
    decreases |s|
  {
    if |s| > 0 && IsSpace(s[0]) then TrimStart(s[1..]) else s
  }

  /** `s` without its trailing spaces. */
  function TrimEnd(s: string): (r: string)
    ensures |r| > 0 ==> !IsSpace(r[|r| - 1])
    decreases |s|
  {
    if |s| > 0 && IsSpace(s[|s| - 1]) then TrimEnd(s[..|s| - 1]) else s
  }

  /** Digits in groups joined by single underscores, as in `1_000`, but not `_1`, `1_` or `1__0`. */
  predicate DigitGroups(s: string)
  {
    && |s| > 0 && IsDigit(s[0]) && IsDigit(s[|s| - 1])
    && (forall k :: 0 <= k < |s| ==> IsDigit(s[k]) || s[k] == '_')
    && (forall k :: 0 <= k < |s| - 1 && s[k] == '_' ==> s[k + 1] != '_')
  }

  /** The digits of a text of digits and underscores, in order. */
  function DropUnderscores(s: string): (r: string)
    requires forall k :: 0 <= k < |s| ==> IsDigit(s[k]) || s[k] == '_'
    ensures AllDigits(r) && |r| <= |s|
    ensures AllDigits(s) ==> r == s
    decreases |s|
  {
    if |s| == 0 then ""
    else
      var rest := DropUnderscores(s[1..]);
      if s[0] == '_' then rest else [s[0]] + rest
  }

  /** A text of plain digits is one group, and denotes what its digits denote. */
  lemma PlainDigits(s: string)
    requires |s| > 0 && AllDigits(s)
    ensures DigitGroups(s) && GroupsValue(s) == DigitsValue(s)
  {
    assert IsDigit(s[0]) && IsDigit(s[|s| - 1]);
  }

  /** A text that neither starts nor ends with a space is not trimmed. */
  lemma NoSpacesAround(s: string)
    requires |s| > 0 && !IsSpace(s[0]) && !IsSpace(s[|s| - 1])
    ensures TrimEnd(TrimStart(s)) == s && ParseInt(s) == ParseTrimmed(s)
  {
    assert TrimStart(s) == s;
  }

  /** The number a text of digit groups denotes. */
  function GroupsValue(s: string): nat
    requires DigitGroups(s)
  {
    DigitsValue(DropUnderscores(s))
  }

  /** `int(s)` in base 10: surrounding spaces are skipped, then the rest is read by `ParseTrimmed`. */
  function ParseInt(s: string): Option<int>
  {
    ParseTrimmed(TrimEnd(TrimStart(s)))
  }

  /** A sign may lead, and the digits may be grouped by single underscores; anything else is refused. */
  function ParseTrimmed(t: string): Option<int>
  {
    if |t| > 1 && (t[0] == '-' || t[0] == '+') && DigitGroups(t[1..]) then
      var magnitude: int := GroupsValue(t[1..]);
      Some(if t[0] == '-' then -magnitude else magnitude)
    else if DigitGroups(t) then
      Some(GroupsValue(t))
    else
      None
  }

  predicate AllSpaces(s: string)
  {
    forall k :: 0 <= k < |s| ==> IsSpace(s[k])
  }

  lemma {:induction false} TrimStartSpaces(a: string, s: string)
    requires AllSpaces(a) && |s| > 0 && !IsSpace(s[0])
    ensures TrimStart(a + s) == s
    decreases |a|
  {
    if |a| > 0 {
      assert (a + s)[1..] == a[1..] + s;
      TrimStartSpaces(a[1..], s);
    } else {
      assert a + s == s;
    }
  }

  lemma {:induction false} TrimEndSpaces(s: string, b: string)
    requires AllSpaces(b) && |s| > 0 && !IsSpace(s[|s| - 1])
    ensures TrimEnd(s + b) == s
    decreases |b|
  {
    if |b| > 0 {
      assert (s + b)[..|s + b| - 1] == s + b[..|b| - 1];
      TrimEndSpaces(s, b[..|b| - 1]);
    } else {
      assert s + b == s;
    }
  }

  /** `int()` reads a number the same with spaces around it as without. */
  lemma ParseIntSkipsSpaces(a: string, s: string, b: string)
    requires AllSpaces(a) && AllSpaces(b)
    requires |s| > 0 && !IsSpace(s[0]) && !IsSpace(s[|s| - 1])
    ensures ParseInt(a + s + b) == ParseInt(s)
  {
    assert a + s + b == a + (s + b);
    TrimStartSpaces(a, s + b);
    TrimEndSpaces(s, b);
    NoSpacesAround(s);
  }

  /** Digits before a text of digits and underscores are kept as they are. */
  lemma {:induction false} DropUnderscoresAfterDigits(x: string, rest: string)
    requires AllDigits(x)
    requires forall k :: 0 <= k < |rest| ==> IsDigit(rest[k]) || rest[k] == '_'
    ensures forall k :: 0 <= k < |x + rest| ==> IsDigit((x + rest)[k]) || (x + rest)[k] == '_'
    ensures DropUnderscores(x + rest) == x + DropUnderscores(rest)
    decreases |x|
  {
    if |x| > 0 {
      assert (x + rest)[1..] == x[1..] + rest;
      DropUnderscoresAfterDigits(x[1..], rest);
      assert x == [x[0]] + x[1..];
    } else {
      assert x + rest == rest;
    }
  }

  /** `int()` reads two digit runs joined by one underscore as the digits run together. */
  lemma ParseIntGrouped(x: string, y: string, s: string)
    requires |x| > 0 && |y| > 0 && AllDigits(x) && AllDigits(y)
    requires s == x + "_" + y
    ensures AllDigits(x + y) && ParseInt(s) == Some(DigitsValue(x + y))
  {
    TwoGroups(x, y, s);
    assert s[0] == x[0] && s[|s| - 1] == y[|y| - 1];
    NoSpacesAround(s);
    assert IsDigit(s[0]);
    assert ParseTrimmed(s) == Some(DigitsValue(x + y));
  }

  lemma TwoGroups(x: string, y: string, s: string)
    requires |x| > 0 && |y| > 0 && AllDigits(x) && AllDigits(y)
    requires s == x + "_" + y
    ensures AllDigits(x + y) && DigitGroups(s) && GroupsValue(s) == DigitsValue(x + y)
  {
    var rest := "_" + y;
    assert s == x + rest;
    assert DropUnderscores(rest) == DropUnderscores(y) == y by {
      assert rest[1..] == y;
    }
    DropUnderscoresAfterDigits(x, rest);
    forall k | 0 <= k < |s| - 1 && s[k] == '_'
      ensures s[k + 1] != '_'
    {
      assert k == |x|;
    }
    assert IsDigit(s[0]) && IsDigit(s[|s| - 1]);
  }

  /** `int()` refuses a doubled, leading or trailing underscore, and a sign cut off from the digits. */
  lemma ParseIntRefuses(s: string)
    requires s in ["1__0", "_1", "1_", "- 1", " "]
    ensures ParseInt(s) == None
  {
    if s == " " {
      ParseIntRefusesBlank(s);
    } else if s == "- 1" {
      ParseIntRefusesSpacedSign(s);
    } else {
      ParseIntRefusesUnderscores(s);
    }
  }

  lemma ParseIntRefusesBlank(s: string)
    requires s == " "
    ensures ParseInt(s) == None
  {
    assert TrimStart(s) == TrimStart(s[1..]) == "";
  }

  lemma ParseIntRefusesSpacedSign(s: string)
    requires s == "- 1"
    ensures ParseInt(s) == None
  {
    assert !IsSpace(s[0]) && !IsSpace(s[|s| - 1]);
    NoSpacesAround(s);
    assert s[1..][0] == ' ';
    assert !DigitGroups(s[1..]) && !DigitGroups(s);
  }

  lemma ParseIntRefusesUnderscores(s: string)
    requires s == "1__0" || s == "_1" || s == "1_"
    ensures ParseInt(s) == None
  {
    assert !IsSpace(s[0]) && !IsSpace(s[|s| - 1]);
    NoSpacesAround(s);
    assert !DigitGroups(s) by {
      if s == "1__0" {
        assert s[1] == '_' && s[2] == '_';
      }
    }
  }

  /** Reading back the text of a natural number gives the number. */
  lemma {:induction false} NatToTextValue(n: nat)
    ensures DigitsValue(NatToText(n)) == n
    decreases n
  {
    if n >= 10 {
      NatToTextValue(n / 10);
      var r := NatToText(n);
      assert r[..|r| - 1] == NatToText(n / 10);
    }
  }

  /** `int(str(n)) == n` for a natural number. */
  lemma ParseNatText(n: nat)
    ensures ParseInt(NatToText(n)) == Some(n)
  {
    NatToTextValue(n);
    ParseDigits(NatToText(n));
  }

  /** `int("-" + str(n)) == -n`. */
  lemma ParseNegatedText(n: nat, t: string)
    requires t == "-" + NatToText(n)
    ensures ParseInt(t) == Some(-(n as int))
  {
    NatToTextValue(n);
    ParseSignedDigits(NatToText(n), t);
  }

  lemma ParseSignedDigits(d: string, t: string)
    requires |d| > 0 && AllDigits(d) && t == "-" + d
    ensures ParseInt(t) == Some(-(DigitsValue(d) as int))
  {
    assert t[1..] == d;
    ParseNegativeDigits(t);
  }

  /** `int(str(i)) == i`. */
  lemma ParseIntOfText(i: int)
    ensures ParseInt(IntToText(i)) == Some(i)
  {
    if i < 0 {
      ParseNegatedText(-i, IntToText(i));
    } else {
      ParseNatText(i);
    }
  }

  /** `int()` of a text of digits is the number they denote. */
  lemma ParseDigits(t: string)
    requires |t| > 0 && AllDigits(t)
    ensures ParseInt(t) == Some(DigitsValue(t))
  {
    PlainDigits(t);
    assert IsDigit(t[0]) && IsDigit(t[|t| - 1]);
    NoSpacesAround(t);
    assert ParseTrimmed(t) == Some(DigitsValue(t));
  }

  /** `int()` of a minus sign and digits is the negated number the digits denote. */
  lemma ParseNegativeDigits(t: string)
    requires |t| > 1 && t[0] == '-' && AllDigits(t[1..])
    ensures ParseInt(t) == Some(-(DigitsValue(t[1..]) as int))
  {
    PlainDigits(t[1..]);
    assert t[|t| - 1] == t[1..][|t| - 2];
    assert IsDigit(t[|t| - 1]);
    NoSpacesAround(t);
    assert ParseTrimmed(t) == Some(-(DigitsValue(t[1..]) as int));
  }

  /** A number below 10^k has at most k digits. */
  lemma {:induction false} NatToTextLength(n: nat, k: nat)
    requires k >= 1 && n < Pow10(k)
    ensures |NatToText(n)| <= k
    decreases n
  {
    if n >= 10 {
      NatToTextLength(n / 10, k - 1);
    }
  }

  /** Leading zeros do not change the value of a digit text. */
  lemma {:induction false} LeadingZeros(k: nat, s: string)
    requires AllDigits(s)
    ensures AllDigits(Repeat('0', k) + s) && DigitsValue(Repeat('0', k) + s) == DigitsValue(s)
    decreases |s|, k
  {
    var t := Repeat('0', k) + s;
    if |s| == 0 {
      assert t == Repeat('0', k);
      if k > 0 {
        assert t[..|t| - 1] == Repeat('0', k - 1) + s;
        LeadingZeros(k - 1, s);
      }
    } else {
      assert t[..|t| - 1] == Repeat('0', k) + s[..|s| - 1];
      LeadingZeros(k, s[..|s| - 1]);
    }
  }
}
