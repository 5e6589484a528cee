/** The few pieces of Python's built-in text handling that the report-card
    core relies on: `str.strip()`, `str(n)` for an integer, `int(s)` on a
    string, `int(x)` on a float, and substring search (`t in s`). */
module PyText {

  /** `c.isspace()` in Python: the characters `str.strip()` removes. */
  predicate IsSpace(c: char) {
    || c == ' '
    || '\t' <= c <= '\r'
    || '\U{1C}' <= c <= '\U{1F}'
    || c == '\U{85}' || c == '\U{A0}' || c == '\U{1680}'
    || '\U{2000}' <= c <= '\U{200A}'
    || c == '\U{2028}' || c == '\U{2029}' || c == '\U{202F}' || c == '\U{205F}' || c == '\U{3000}'
  }

  /** The whitespace `int()` skips around a number: every `isspace()`
      character except the ASCII separators U+001C..U+001F, which `int()`
      keeps and then rejects as text. */
  predicate IsIntSpace(c: char) {
    IsSpace(c) && !('\U{1C}' <= c <= '\U{1F}')
  }

  predicate IsDigit(c: char) {
    '0' <= c <= '9'
  }

  predicate IsDigits(s: string) {
    forall i :: 0 <= i < |s| ==> IsDigit(s[i])
  }

  function DigitValue(c: char): (d: nat)
    requires IsDigit(c)
    ensures d < 10
  {
    (c as int) - ('0' as int)
  }

  function DigitChar(d: nat): (c: char)
    requires d < 10
    ensures IsDigit(c) && DigitValue(c) == d
  {
    (('0' as int) + d) as char
  }

  lemma DigitCharOfValue(c: char)
    requires IsDigit(c)
    ensures DigitChar(DigitValue(c)) == c
  {
  }

  function Pow10(k: nat): (p: nat)
    ensures p >= 1
  {
    if k == 0 then 1 else 10 * Pow10(k - 1)
  }

  /** The number a string of decimal digits denotes (leading zeros allowed). */
  function DigitsValue(s: string): nat
    requires IsDigits(s)
  {
    if s == [] then 0 else DigitsValue(s[..|s| - 1]) * 10 + DigitValue(s[|s| - 1])
  }

  /** Leading zeros do not change the value of a digit string. */
  lemma {:induction false} LeadingZeroValue(s: string)
    requires IsDigits(s)
    ensures IsDigits("0" + s) && DigitsValue("0" + s) == DigitsValue(s)
  {
    if s != [] {
      var t := "0" + s;
      assert t[..|t| - 1] == "0" + s[..|s| - 1];
      LeadingZeroValue(s[..|s| - 1]);
    }
  }

  /** `str(n)` for a natural number: the shortest decimal rendering. */
  function NatToString(n: nat): (r: string)
    ensures |r| >= 1 && IsDigits(r)
    ensures r[0] == '0' ==> r == "0"
  {
    if n < 10 then [DigitChar(n)] else NatToString(n / 10) + [DigitChar(n % 10)]
  }

  /** `str(i)` for a Python int. */
  function IntToString(i: int): (r: string)
    ensures |r| >= 1 && IsDigit(r[|r| - 1])
    ensures i >= 0 <==> IsDigits(r)
  {
    if i < 0 then
      var r := "-" + NatToString(-i);
      assert !IsDigit(r[0]);
      r
    else
      NatToString(i)
  }

  /** Reading back the decimal rendering of n gives n. */
  lemma {:induction false} NatToStringValue(n: nat)
    ensures DigitsValue(NatToString(n)) == n
  {
    if n >= 10 {
      NatToStringValue(n / 10);
      var s := NatToString(n);
      assert s[..|s| - 1] == NatToString(n / 10);
    }
  }

  /** A digit string with its leading zeros dropped ("0" if nothing is left). */
  function Canonical(s: string): (r: string)
    requires IsDigits(s)
    ensures IsDigits(r) && |r| >= 1
  {
    if s == [] then "0"
    else if s[0] == '0' && |s| > 1 then Canonical(s[1..])
    else s
  }

  /** A digit string that does not start with '0' denotes at least 1. */
  lemma {:induction false} NoLeadingZeroPositive(s: string)
    requires IsDigits(s) && |s| >= 1 && s[0] != '0'
    ensures DigitsValue(s) >= 1
  {
    if |s| > 1 {
      NoLeadingZeroPositive(s[..|s| - 1]);
    }
  }

  /** Rendering the value of a digit string without leading zeros gives the string back. */
  lemma {:induction false} NatToStringOfDigits(s: string)
    requires IsDigits(s) && |s| >= 1 && (s[0] != '0' || s == "0")
    ensures NatToString(DigitsValue(s)) == s
  {
    if |s| > 1 {
      var p := s[..|s| - 1];
      NoLeadingZeroPositive(p);
      NatToStringOfDigits(p);
      assert DigitsValue(s) / 10 == DigitsValue(p);
      assert DigitsValue(s) % 10 == DigitValue(s[|s| - 1]);
      DigitCharOfValue(s[|s| - 1]);
    } else {
      DigitCharOfValue(s[0]);
    }
  }

  /** `str(int(s))` for a digit string is the string with its leading zeros dropped. */
  lemma {:induction false} NatToStringCanonical(s: string)
    requires IsDigits(s)
    ensures NatToString(DigitsValue(s)) == Canonical(s)
  {
    if s == [] {
    } else if s[0] == '0' && |s| > 1 {
      LeadingZeroValue(s[1..]);
      assert s == "0" + s[1..];
      NatToStringCanonical(s[1..]);
    } else {
      NatToStringOfDigits(s);
    }
  }

  /** `s.lstrip()`. */
  function StripLeft(s: string): (r: string)
    ensures |r| <= |s| && r == s[|s| - |r|..]
    ensures r == [] || !IsSpace(r[0])
    ensures forall i :: 0 <= i < |s| - |r| ==> IsSpace(s[i])
  {
    if |s| > 0 && IsSpace(s[0]) then StripLeft(s[1..]) else s
  }

  /** `s.rstrip()`. */
  function StripRight(s: string): (r: string)
    ensures |r| <= |s| && r == s[..|r|]
    ensures r == [] || !IsSpace(r[|r| - 1])
    ensures forall i :: |r| <= i < |s| ==> IsSpace(s[i])
  {
    if |s| > 0 && IsSpace(s[|s| - 1]) then StripRight(s[..|s| - 1]) else s
  }

  /** `s.strip()`: the string without surrounding whitespace. */
  function Strip(s: string): (r: string)
    ensures r == [] || (!IsSpace(r[0]) && !IsSpace(r[|r| - 1]))
  {
    StripRight(StripLeft(s))
  }

  /** A string that neither starts nor ends with whitespace is its own strip. */
  lemma StripUnchanged(s: string)
    requires s == [] || (!IsSpace(s[0]) && !IsSpace(s[|s| - 1]))
    ensures Strip(s) == s
  {
  }

  /** `s.strip()` removes whitespace from both ends and nothing else: the
      result is the slice of s from k on, and everything around it is whitespace. */
  lemma StripDropsOnlySpace(s: string) returns (k: nat)
    ensures k + |Strip(s)| <= |s| && Strip(s) == s[k..k + |Strip(s)|]
    ensures forall i :: 0 <= i < k ==> IsSpace(s[i])
    ensures forall i :: k + |Strip(s)| <= i < |s| ==> IsSpace(s[i])
  {
    var l := StripLeft(s);
    k := |s| - |l|;
    var r := StripRight(l);
    SliceOfSlice(s, l, r, k);
    TrailingSpace(s, l, |r|, k);
  }

  /** A prefix of a suffix of s is a slice of s. */
  lemma SliceOfSlice(s: string, l: string, r: string, k: nat)
    requires k <= |s| && l == s[k..] && |r| <= |l| && r == l[..|r|]
    ensures k + |r| <= |s| && r == s[k..k + |r|]
  {
  }

  /** Whitespace at the end of a suffix of s is whitespace at the end of s. */
  lemma TrailingSpace(s: string, l: string, n: nat, k: nat)
    requires k <= |s| && l == s[k..] && n <= |l|
    requires forall i :: n <= i < |l| ==> IsSpace(l[i])
    ensures forall i :: k + n <= i < |s| ==> IsSpace(s[i])
  {
    forall i | k + n <= i < |s|
      ensures IsSpace(s[i])
    {
      assert s[i] == l[i - k];
    }
  }

  /** Whitespace in front of text that does not start with whitespace is stripped. */
  lemma {:induction false} StripLeftPadding(pre: string, x: string)
    requires forall i :: 0 <= i < |pre| ==> IsSpace(pre[i])
    requires x == [] || !IsSpace(x[0])
    ensures StripLeft(pre + x) == x
  {
    if pre != [] {
      assert (pre + x)[1..] == pre[1..] + x;
      StripLeftPadding(pre[1..], x);
    }
  }

  /** Whitespace after text that does not end with whitespace is stripped. */
  lemma {:induction false} StripRightPadding(x: string, post: string)
    requires forall i :: 0 <= i < |post| ==> IsSpace(post[i])
    requires x == [] || !IsSpace(x[|x| - 1])
    ensures StripRight(x + post) == x
  {
    if post != [] {
      var shorter := post[..|post| - 1];
      assert (x + post)[..|x + post| - 1] == x + shorter;
      StripRightPadding(x, shorter);
    }
  }

  /** `int(s)` on a string, restricted to what the report cells hold:
      surrounding whitespace, an optional sign and at least one ASCII digit.
      `NotAnInteger` stands for the `ValueError` Python raises on anything else. */
  datatype Parsed = Parsed(value: int) | NotAnInteger

  function ParseInt(s: string): Parsed {
    ParseStripped(TrimIntSpace(s))
  }

  /** The text `int()` parses: s without the leading and trailing whitespace
      that `IsIntSpace` accepts. */
  function TrimIntSpace(s: string): (r: string)
    ensures |r| <= |s|
    ensures r == [] || (!IsIntSpace(r[0]) && !IsIntSpace(r[|r| - 1]))
    decreases |s|
  {
    if |s| > 0 && IsIntSpace(s[0]) then TrimIntSpace(s[1..])
    else if |s| > 0 && IsIntSpace(s[|s| - 1]) then TrimIntSpace(s[..|s| - 1])
    else s
  }

  /** Whitespace around text that neither starts nor ends with it is exactly
      what `int()` skips. */
  lemma {:induction false} TrimIntSpacePadding(pre: string, x: string, post: string)
    requires forall j :: 0 <= j < |pre| ==> IsIntSpace(pre[j])
    requires forall j :: 0 <= j < |post| ==> IsIntSpace(post[j])
    requires x != [] && !IsIntSpace(x[0]) && !IsIntSpace(x[|x| - 1])
    ensures TrimIntSpace(pre + x + post) == x
    decreases |pre| + |post|
  {
    var s := pre + x + post;
    if pre != [] {
      assert s[0] == pre[0];
      assert s[1..] == pre[1..] + x + post;
      TrimIntSpacePadding(pre[1..], x, post);
    } else if post != [] {
      assert s == x + post;
      assert s[0] == x[0] && s[|s| - 1] == post[|post| - 1];
      assert s[..|s| - 1] == [] + x + post[..|post| - 1];
      TrimIntSpacePadding([], x, post[..|post| - 1]);
    } else {
      assert s == x;
    }
  }

  /** Text that starts with something other than `int()`'s whitespace keeps
      its first character. */
  lemma {:induction false} TrimIntSpaceKeepsFirst(s: string)
    requires s != [] && !IsIntSpace(s[0])
    ensures TrimIntSpace(s) != [] && TrimIntSpace(s)[0] == s[0]
    decreases |s|
  {
    if |s| > 1 && IsIntSpace(s[|s| - 1]) {
      TrimIntSpaceKeepsFirst(s[..|s| - 1]);
    }
  }

  /** `int()` rejects a number behind an ASCII separator U+001C..U+001F, although
      `str.strip()` would remove it. */
  lemma ParseIntRejectsSeparator(c: char, x: string)
    requires '\U{1C}' <= c <= '\U{1F}'
    ensures Strip([c]) == [] && ParseInt([c] + x) == NotAnInteger
  {
    assert IsSpace(c) && !IsIntSpace(c);
    assert StripLeft([c]) == StripLeft([c][1..]) == [];
    var s := [c] + x;
    assert s[0] == c;
    TrimIntSpaceKeepsFirst(s);
    NotIntegerStart(TrimIntSpace(s));
  }

  /** `int()` rejects text that starts with neither a sign nor a digit. */
  lemma NotIntegerStart(t: string)
    requires t != [] && t[0] != '+' && t[0] != '-' && !IsDigit(t[0])
    ensures ParseStripped(t) == NotAnInteger
  {
  }

  /** `int()` once the surrounding whitespace is gone. */
  function ParseStripped(t: string): Parsed {
    if |t| > 1 && (t[0] == '+' || t[0] == '-') && IsDigits(t[1..]) then
      var magnitude: int := DigitsValue(t[1..]);
      Parsed(if t[0] == '-' then -magnitude else magnitude)
    else if |t| > 0 && IsDigits(t) then
      Parsed(DigitsValue(t))
    else
      NotAnInteger
  }

  lemma ParseNegative(digits: string)
    requires |digits| > 0 && IsDigits(digits)
    ensures ParseStripped("-" + digits) == Parsed(-(DigitsValue(digits) as int))
  {
    assert ("-" + digits)[1..] == digits;
  }

  /** `int(str(i)) == i`: the rendering and the parse are inverse. */
  lemma ParseIntOfIntToString(i: int)
    ensures ParseInt(IntToString(i)) == Parsed(i)
  {
    if i < 0 {
      ParseIntOfNegative(i);
    } else {
      ParseIntOfNatural(i);
    }
  }

  lemma ParseIntOfNegative(i: int)
    requires i < 0
    ensures ParseInt(IntToString(i)) == Parsed(i)
  {
    var digits := NatToString(-i);
    NatToStringValue(-i);
    ParseIntNegative(IntToString(i), digits, i);
  }

  /** `int("-" + digits)` is minus the value of the digits. */
  lemma ParseIntNegative(s: string, digits: string, i: int)
    requires |digits| > 0 && IsDigits(digits)
    requires s == "-" + digits && DigitsValue(digits) == -i
    ensures ParseInt(s) == Parsed(i)
  {
    assert s[0] == '-' && s[|s| - 1] == digits[|digits| - 1];
    assert TrimIntSpace(s) == s;
    ParseNegative(digits);
  }

  lemma ParseIntOfNatural(n: nat)
    ensures ParseInt(IntToString(n)) == Parsed(n)
  {
    var s := NatToString(n);
    assert IsDigit(s[0]) && IsDigit(s[|s| - 1]);
    assert TrimIntSpace(s) == s;
    NatToStringValue(n);
    assert s[0] != '+' && s[0] != '-';
  }

  /** `int()` reads an integer written by `str()` back, whatever whitespace
      `int()` skips surrounds it. */
  lemma ParseIntOfPadded(pre: string, i: int, post: string)
    requires forall j :: 0 <= j < |pre| ==> IsIntSpace(pre[j])
    requires forall j :: 0 <= j < |post| ==> IsIntSpace(post[j])
    ensures ParseInt(pre + IntToString(i) + post) == Parsed(i)
  {
    var x := IntToString(i);
    assert x[0] == '-' || IsDigit(x[0]);
    TrimIntSpacePadding(pre, x, post);
    ParseIntOfIntToString(i);
  }

  /** t occurs in s starting at index i. */
  predicate OccursAt(s: string, t: string, i: int) {
    0 <= i <= |s| - |t| && s[i..i + |t|] == t
  }

  /** `t in s` for strings. */
  predicate Contains(s: string, t: string) {
    exists i :: 0 <= i <= |s| - |t| && OccursAt(s, t, i)
  }

  lemma ContainsPrefix(t: string, u: string)
    ensures Contains(t + u, t)
  {
    assert OccursAt(t + u, t, 0);
  }

  lemma ContainsExtend(p: string, s: string, u: string, t: string)
    requires Contains(s, t)
    ensures Contains(p + s + u, t)
  {
    var i :| 0 <= i <= |s| - |t| && OccursAt(s, t, i);
    assert (p + s + u)[|p| + i..|p| + i + |t|] == s[i..i + |t|];
    assert OccursAt(p + s + u, t, |p| + i);
  }

  /** `int(x)` for a float: truncation toward zero. */
  function Truncate(x: real): (r: int)
    ensures x >= 0.0 ==> 0 <= r && r as real <= x < r as real + 1.0
    ensures x < 0.0 ==> r <= 0 && r as real - 1.0 < x <= r as real
  {
    if x >= 0.0 then x.Floor else -((-x).Floor)
  }
}
