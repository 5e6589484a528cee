/** The display formatters of pdf_generator.py: `format_mark` (lines
    425-458), `format_class_average` (lines 204-225), `get_subject_marks`
    (lines 600-621) and the `None`-to-zero pass over a student row inside
    `generate_pdf` (lines 817-825). */
module ReportFormat {
  import opened PyText
  import opened Cells

  /** The index of the first '.' in t, or |t| when there is none. */
  function DotIndex(t: string): (k: nat)
    ensures k <= |t| && (k < |t| ==> t[k] == '.')
    ensures forall i :: 0 <= i < k ==> t[i] != '.'
  {
    if t == [] || t[0] == '.' then 0 else 1 + DotIndex(t[1..])
  }

  /** The whole string matches `\d+` (ASCII digits). */
  predicate IsIntegerText(t: string) {
    |t| > 0 && IsDigits(t)
  }

  /** The whole string matches `\d+\.\d+` (ASCII digits). */
  predicate IsDecimalText(t: string) {
    var k := DotIndex(t);
    0 < k < |t| - 1 && IsDigits(t[..k]) && IsDigits(t[k + 1..])
  }

  /** The part of s that a pattern anchored by `^` and `$` is matched against:
      Python's `$` also matches just before a final newline. */
  function LineBody(s: string): string {
    if |s| > 0 && s[|s| - 1] == '\n' then s[..|s| - 1] else s
  }

  /** `format_mark(mark)`: the integer shown in a report card's mark column. */
  function FormatMark(c: Cell): (r: int)
    ensures IsBlank(c) ==> r == 0
    ensures c.Int? ==> r == c.i
    ensures c.Float? && c.x >= 0.0 ==> 0 <= r && r as real <= c.x < r as real + 1.0
    ensures c.Float? && c.x < 0.0 ==> r <= 0 && r as real - 1.0 < c.x <= r as real
    ensures c.Text? ==> r >= 0
    ensures c.Text? && IsIntegerText(c.s) ==> r == DigitsValue(c.s)
    ensures c.Text? && !IsBlank(c) && !IsDecimalText(LineBody(c.s)) && !IsIntegerText(LineBody(c.s)) ==> r == 0
  {
    if IsBlank(c) then 0
    else
      match c
      case Float(x) => Truncate(x)
      case Int(i) => i
      case Text(s) =>
        var body := LineBody(s);
        if IsDecimalText(body) then DigitsValue(body[..DotIndex(body)])
        else if IsIntegerText(body) then DigitsValue(body)
        else 0
      case Absent => 0
  }

  /** A digit string, with or without one trailing newline, shows as its value. */
  lemma FormatMarkOfDigits(n: nat)
    ensures FormatMark(Text(NatToString(n))) == n
    ensures FormatMark(Text(NatToString(n) + "\n")) == n
  {
    var s := NatToString(n);
    NatToStringValue(n);
    DotIndexOfDigits(s);
    assert LineBody(s) == s;
    assert LineBody(s + "\n") == s;
  }

  /** `digits.digits` shows as its integer part. */
  lemma FormatMarkOfDecimal(whole: string, fraction: string)
    requires IsIntegerText(whole) && IsIntegerText(fraction)
    ensures FormatMark(Text(whole + "." + fraction)) == DigitsValue(whole)
  {
    var s := whole + "." + fraction;
    DecimalTextParts(whole, fraction);
    assert |s| >= 3 && !IsBlank(Text(s));
    assert s[|s| - 1] == fraction[|fraction| - 1];
    assert LineBody(s) == s;
    FormatMarkOfDecimalBody(s);
  }

  /** Text whose line body is a decimal shows as the digits before its '.'. */
  lemma FormatMarkOfDecimalBody(s: string)
    requires !IsBlank(Text(s)) && IsDecimalText(LineBody(s))
    ensures FormatMark(Text(s)) == DigitsValue(LineBody(s)[..DotIndex(LineBody(s))])
  {
  }

  lemma {:induction false} DotIndexAfterDigits(digits: string, rest: string)
    requires IsDigits(digits)
    ensures DotIndex(digits + rest) == |digits| + DotIndex(rest)
  {
    if digits == [] {
      assert digits + rest == rest;
    } else {
      var s := digits + rest;
      assert s[0] == digits[0] && IsDigit(s[0]);
      assert s[1..] == digits[1..] + rest;
      DotIndexAfterDigits(digits[1..], rest);
    }
  }

  /** A digit string has no '.'. */
  lemma DotIndexOfDigits(digits: string)
    requires IsDigits(digits)
    ensures DotIndex(digits) == |digits|
  {
    DotIndexAfterDigits(digits, []);
    assert digits + [] == digits;
  }

  /** Text that does not start with a digit matches neither pattern. */
  lemma NonDigitStart(body: string)
    requires |body| > 0 && !IsDigit(body[0])
    ensures !IsIntegerText(body) && !IsDecimalText(body)
  {
    var k := DotIndex(body);
    if 0 < k {
      assert body[..k][0] == body[0];
    }
  }

  /** A signed number string is not matched by either pattern and shows as 0. */
  lemma FormatMarkOfSigned(t: string)
    ensures FormatMark(Text("-" + t)) == 0
    ensures FormatMark(Text("+" + t)) == 0
  {
    var minus, plus := "-" + t, "+" + t;
    assert minus[0] == '-' && plus[0] == '+';
    assert !IsBlank(Text(minus)) && !IsBlank(Text(plus));
    var m, p := LineBody(minus), LineBody(plus);
    assert |m| > 0 && m[0] == '-' by {
      if |t| > 0 && minus[|minus| - 1] == '\n' {
        assert m == "-" + t[..|t| - 1];
      }
    }
    assert |p| > 0 && p[0] == '+' by {
      if |t| > 0 && plus[|plus| - 1] == '\n' {
        assert p == "+" + t[..|t| - 1];
      }
    }
    NonDigitStart(m);
    NonDigitStart(p);
  }

  /** `format_mark` is idempotent: its result is an int, which it passes through. */
  lemma FormatMarkIdempotent(c: Cell)
    ensures FormatMark(Int(FormatMark(c))) == FormatMark(c)
  {
  }

  /** The value h/100 written with exactly two decimals. */
  function FixedTwo(h: nat): string {
    var cents := h % 100;
    NatToString(h / 100) + "." + [DigitChar(cents / 10), DigitChar(cents % 10)]
  }

  /** Whole units and hundredths of w * 100 + x. */
  lemma SplitHundredths(w: nat, x: nat)
    requires x < 100
    ensures (w * 100 + x) / 100 == w && (w * 100 + x) % 100 == x
  {
  }

  /** The shape of `f"{x:.2f}"` for x >= 0: digits without leading zeros, '.', two digits. */
  predicate IsFixedTwo(r: string) {
    && |r| >= 4
    && r[|r| - 3] == '.'
    && IsDigits(r[..|r| - 3]) && IsDigits(r[|r| - 2..])
    && (r[0] == '0' ==> r[..|r| - 3] == "0")
  }

  lemma FixedTwoShape(h: nat)
    ensures IsFixedTwo(FixedTwo(h))
  {
    var r := FixedTwo(h);
    assert r[..|r| - 3] == NatToString(h / 100);
  }

  /** q rounded to the nearest whole number of d, ties to the even one. */
  function RoundHalfEven(v: nat, d: nat): (q: nat)
    requires d >= 1
    ensures v / d <= q <= v / d + 1
  {
    var q := v / d;
    var rem := v % d;
    if 2 * rem > d || (2 * rem == d && q % 2 == 1) then q + 1 else q
  }

  /** The rounding is to the nearest multiple of d, and a tie goes to the even one. */
  lemma RoundHalfEvenNearest(v: nat, d: nat)
    requires d >= 1
    ensures var q := RoundHalfEven(v, d);
      2 * (v - q * d) <= d && 2 * (q * d - v) <= d
    ensures var q := RoundHalfEven(v, d);
      2 * (v - q * d) == d || 2 * (q * d - v) == d ==> q % 2 == 0
  {
    var q0, rem := v / d, v % d;
    var m := q0 * d;
    assert v == m + rem && 0 <= rem < d;
    var q := RoundHalfEven(v, d);
    if q == q0 + 1 {
      assert q * d == m + d;
      assert 2 * rem >= d;
    } else {
      assert q * d == m;
    }
  }

  /** A `\d+` or `\d+\.\d+` string as a whole number of hundredths. */
  function Hundredths(t: string): nat
    requires IsIntegerText(t) || IsDecimalText(t)
  {
    if IsIntegerText(t) then DigitsValue(t) * 100
    else
      var k := DotIndex(t);
      FractionHundredths(DigitsValue(t[..k]), t[k + 1..])
  }

  /** w units and the digits of a fraction, as hundredths: exact up to two
      fraction digits, rounded half-even beyond. */
  function FractionHundredths(w: nat, fraction: string): nat
    requires IsDigits(fraction)
  {
    var places := |fraction|;
    if places <= 2 then w * 100 + DigitsValue(fraction) * Pow10(2 - places)
    else w * 100 + RoundHalfEven(DigitsValue(fraction), Pow10(places - 2))
  }

  /** `format_class_average(class_average)` on `str(class_average)`. */
  function FormatClassAverage(s: string): (r: string)
    ensures IsFixedTwo(r)
    ensures Strip(s) == [] ==> r == "0.00"
    ensures !IsIntegerText(Strip(s)) && !IsDecimalText(Strip(s)) ==> r == "0.00"
  {
    var t := Strip(s);
    FixedTwoShape(0);
    if t == [] then "0.00"
    else if IsDecimalText(t) || IsIntegerText(t) then
      FixedTwoShape(Hundredths(t));
      FixedTwo(Hundredths(t))
    else "0.00"
  }

  /** Text that, once stripped, does not start with a digit (a sign, "None",
      "nan") shows as "0.00". */
  lemma ClassAverageOfNonDigit(s: string)
    requires Strip(s) != [] && !IsDigit(Strip(s)[0])
    ensures FormatClassAverage(s) == "0.00"
  {
    NonDigitStart(Strip(s));
  }

  /** `str(None)`. */
  const NoneText: string := "None"

  /** A missing class average, `str(None)`, shows as "0.00". */
  lemma ClassAverageOfNone()
    ensures FormatClassAverage(NoneText) == "0.00"
  {
    var t := NoneText;
    assert |t| == 4 && t[0] == 'N' && t[3] == 'e';
    StripUnchanged(t);
    ClassAverageOfNonDigit(t);
  }

  /** An unsigned integer string shows without its leading zeros, then ".00". */
  lemma ClassAverageOfInteger(t: string)
    requires IsIntegerText(t)
    ensures FormatClassAverage(t) == Canonical(t) + ".00"
  {
    assert IsDigit(t[0]) && IsDigit(t[|t| - 1]);
    StripUnchanged(t);
    var v := DigitsValue(t);
    assert Hundredths(t) == v * 100;
    SplitHundredths(v, 0);
    assert FixedTwo(v * 100) == NatToString(v) + "." + [DigitChar(0), DigitChar(0)];
    NatToStringCanonical(t);
  }

  /** How `digits.digits` splits at its '.'. */
  lemma DecimalTextParts(whole: string, fraction: string)
    requires IsIntegerText(whole) && IsIntegerText(fraction)
    ensures var t := whole + "." + fraction;
      && Strip(t) == t && DotIndex(t) == |whole| && IsDecimalText(t) && !IsIntegerText(t)
      && t[..|whole|] == whole && t[|whole| + 1..] == fraction
  {
    var t := whole + "." + fraction;
    assert IsDigit(t[0]) && t[|t| - 1] == fraction[|fraction| - 1];
    StripUnchanged(t);
    assert t == whole + t[|whole|..];
    assert DotIndex(t[|whole|..]) == 0;
    DotIndexAfterDigits(whole, t[|whole|..]);
    assert t[..|whole|] == whole && t[|whole| + 1..] == fraction;
    assert !IsDigit(t[|whole|]);
  }

  /** The two decimals of w units and x hundredths. */
  lemma FixedTwoSplit(h: nat, w: nat, x: nat)
    requires x < 100 && h == w * 100 + x
    ensures FixedTwo(h) == NatToString(w) + "." + [DigitChar(x / 10), DigitChar(x % 10)]
  {
    SplitHundredths(w, x);
  }

  /** One fraction digit is padded with a zero. */
  lemma FixedTwoOfOneDigit(h: nat, w: nat, fraction: string)
    requires IsIntegerText(fraction) && |fraction| == 1 && h == w * 100 + DigitsValue(fraction) * 10
    ensures FixedTwo(h) == NatToString(w) + "." + (fraction + "0")
  {
    var d0 := DigitValue(fraction[0]);
    DigitCharOfValue(fraction[0]);
    assert fraction[..0] == [];
    assert DigitsValue(fraction) == d0;
    FixedTwoSplit(h, w, d0 * 10);
    assert (d0 * 10) / 10 == d0 && (d0 * 10) % 10 == 0;
    assert [fraction[0], DigitChar(0)] == fraction + "0";
  }

  /** Two fraction digits are kept as they are. */
  lemma FixedTwoOfTwoDigits(h: nat, w: nat, fraction: string)
    requires IsIntegerText(fraction) && |fraction| == 2 && h == w * 100 + DigitsValue(fraction)
    ensures FixedTwo(h) == NatToString(w) + "." + fraction
  {
    var d0, d1 := DigitValue(fraction[0]), DigitValue(fraction[1]);
    DigitCharOfValue(fraction[0]);
    DigitCharOfValue(fraction[1]);
    assert fraction[..1][..0] == [];
    assert fraction[..1] == [fraction[0]];
    assert DigitsValue(fraction[..1]) == d0;
    assert DigitsValue(fraction) == d0 * 10 + d1;
    var x := d0 * 10 + d1;
    FixedTwoSplit(h, w, x);
    assert x / 10 == d0 && x % 10 == d1;
    assert [fraction[0], fraction[1]] == fraction;
  }

  /** h hundredths are the value v / d rounded to the nearest hundredth, a tie
      going to the even one: 200 * |h * d - 100 * v| <= 100 * d. */
  predicate NearestHundredths(h: int, v: int, d: int) {
    && 2 * (h * d - 100 * v) <= d && 2 * (100 * v - h * d) <= d
    && (2 * (h * d - 100 * v) == d || 2 * (100 * v - h * d) == d ==> h % 2 == 0)
  }

  /** A decimal string is formatted from its value in hundredths. */
  lemma DecimalClassAverageIsHundredths(whole: string, fraction: string)
    requires IsIntegerText(whole) && IsIntegerText(fraction)
    ensures FormatClassAverage(whole + "." + fraction) == FixedTwo(Hundredths(whole + "." + fraction))
  {
    DecimalTextParts(whole, fraction);
  }

  /** A decimal string `whole.fraction`, whose value is v / 10^|fraction|, is
      formatted from that value rounded to the nearest hundredth, a tie going
      to the even hundredth. */
  lemma DecimalClassAverage(whole: string, fraction: string) returns (h: nat)
    requires IsIntegerText(whole) && IsIntegerText(fraction)
    ensures FormatClassAverage(whole + "." + fraction) == FixedTwo(h)
    ensures NearestHundredths(h, DigitsValue(whole) * Pow10(|fraction|) + DigitsValue(fraction), Pow10(|fraction|))
  {
    DecimalClassAverageIsHundredths(whole, fraction);
    HundredthsOfDecimal(whole, fraction);
    h := FractionHundredths(DigitsValue(whole), fraction);
    HundredthsNearest(DigitsValue(whole), fraction, h);
  }

  /** The hundredths of `whole.fraction`, from its two parts. */
  lemma HundredthsOfDecimal(whole: string, fraction: string)
    requires IsIntegerText(whole) && IsIntegerText(fraction)
    ensures Hundredths(whole + "." + fraction) == FractionHundredths(DigitsValue(whole), fraction)
  {
    DecimalTextParts(whole, fraction);
  }

  /** w units and the p-digit fraction f, in hundredths: exact up to two
      digits, rounded half-even beyond. */
  lemma HundredthsNearest(w: nat, fraction: string, h: nat)
    requires IsDigits(fraction) && h == FractionHundredths(w, fraction)
    ensures NearestHundredths(h, w * Pow10(|fraction|) + DigitsValue(fraction), Pow10(|fraction|))
  {
    var f, p := DigitsValue(fraction), |fraction|;
    if p <= 2 {
      Pow10Add(2 - p, p);
      assert Pow10(2) == 100;
      ExactHundredths(w, f, Pow10(2 - p), Pow10(p), h);
    } else {
      Pow10Add(2, p - 2);
      assert Pow10(2) == 100;
      var e := Pow10(p - 2);
      RoundHalfEvenNearest(f, e);
      RoundedHundredths(w, f, RoundHalfEven(f, e), e, Pow10(p), h);
    }
  }

  /** 10^(a+b) = 10^a * 10^b. */
  lemma {:induction false} Pow10Add(a: nat, b: nat)
    ensures Pow10(a + b) == Pow10(a) * Pow10(b)
  {
    if a > 0 {
      Pow10Add(a - 1, b);
      assert Pow10(a + b) == 10 * Pow10(a - 1 + b);
    }
  }

  /** With at most two fraction digits, the hundredths are the value exactly. */
  lemma ExactHundredths(w: nat, f: nat, s: nat, d: nat, h: nat)
    requires s * d == 100 && h == w * 100 + f * s
    ensures NearestHundredths(h, w * d + f, d)
  {
    assert h * d == w * 100 * d + f * (s * d);
    assert h * d == 100 * (w * d + f);
  }

  /** With more fraction digits, the distance to the value is that of the
      rounded fraction, scaled by 100. */
  lemma RoundedHundredths(w: nat, f: nat, q: nat, e: nat, d: nat, h: nat)
    requires d == 100 * e && h == w * 100 + q
    requires 2 * (f - q * e) <= e && 2 * (q * e - f) <= e
    requires 2 * (f - q * e) == e || 2 * (q * e - f) == e ==> q % 2 == 0
    ensures NearestHundredths(h, w * d + f, d)
  {
    var x := q * e - f;
    assert h * d == w * d * 100 + 100 * (q * e);
    assert h * d - 100 * (w * d + f) == 100 * x;
    assert h % 2 == q % 2;
  }

  /** With at most two fraction digits, the value in hundredths is exact. */
  lemma ShortDecimalHundredths(whole: string, fraction: string)
    requires IsIntegerText(whole) && IsIntegerText(fraction) && |fraction| <= 2
    ensures IsDecimalText(whole + "." + fraction)
    ensures |fraction| == 1 ==> Hundredths(whole + "." + fraction) == DigitsValue(whole) * 100 + DigitsValue(fraction) * 10
    ensures |fraction| == 2 ==> Hundredths(whole + "." + fraction) == DigitsValue(whole) * 100 + DigitsValue(fraction)
  {
    HundredthsOfDecimal(whole, fraction);
    DecimalTextParts(whole, fraction);
    assert Pow10(0) == 1 && Pow10(1) == 10;
  }

  /** `a.b` with one or two fraction digits shows as a (leading zeros dropped),
      '.', and b padded with a zero to two digits. */
  lemma ClassAverageOfShortDecimal(whole: string, fraction: string)
    requires IsIntegerText(whole) && IsIntegerText(fraction) && |fraction| <= 2
    ensures FormatClassAverage(whole + "." + fraction)
         == Canonical(whole) + "." + (if |fraction| == 1 then fraction + "0" else fraction)
  {
    var w := DigitsValue(whole);
    var f := DigitsValue(fraction);
    DecimalClassAverageIsHundredths(whole, fraction);
    ShortDecimalHundredths(whole, fraction);
    NatToStringCanonical(whole);
    var t := whole + "." + fraction;
    if |fraction| == 1 {
      var h := Hundredths(t);
      assert h == w * 100 + f * 10;
      FixedTwoOfOneDigit(h, w, fraction);
      assert FixedTwo(h) == NatToString(w) + "." + (fraction + "0");
    } else {
      var h := Hundredths(t);
      assert h == w * 100 + f;
      FixedTwoOfTwoDigits(h, w, fraction);
      assert FixedTwo(h) == NatToString(w) + "." + fraction;
    }
  }

  /** Formatting a formatted class average changes nothing. */
  lemma ClassAverageIdempotent(s: string)
    ensures FormatClassAverage(FormatClassAverage(s)) == FormatClassAverage(s)
  {
    var r := FormatClassAverage(s);
    var whole, fraction := FixedTwoParts(r);
    ClassAverageOfShortDecimal(whole, fraction);
  }

  /** A two-decimal string splits into canonical digits, '.', and two digits. */
  lemma FixedTwoParts(r: string) returns (whole: string, fraction: string)
    requires IsFixedTwo(r)
    ensures r == whole + "." + fraction
    ensures IsIntegerText(whole) && IsIntegerText(fraction) && |fraction| == 2
    ensures Canonical(whole) == whole
  {
    whole, fraction := r[..|r| - 3], r[|r| - 2..];
    assert r == whole + "." + fraction;
    assert |whole| >= 1 && (whole[0] != '0' || whole == "0");
  }

  /** `str(i)` of an int: a non-negative one shows with ".00", a negative one as "0.00". */
  lemma ClassAverageOfInt(i: int)
    ensures FormatClassAverage(IntToString(i)) == if i >= 0 then IntToString(i) + ".00" else "0.00"
  {
    var s := IntToString(i);
    if i >= 0 {
      assert s == NatToString(i);
      ClassAverageOfInteger(s);
      NatToStringValue(i);
      NatToStringCanonical(s);
      assert Canonical(s) == s;
    } else {
      assert s == "-" + NatToString(-i);
      assert s[0] == '-' && IsDigit(s[|s| - 1]);
      assert !IsSpace(s[0]) && !IsSpace(s[|s| - 1]);
      StripUnchanged(s);
      ClassAverageOfNonDigit(s);
    }
  }

  // ---- get_subject_marks: a Python dict, kept in insertion order ----

  /** The keys of a dictionary, in insertion order. */
  function Keys(d: seq<Entry>): (ks: seq<string>)
    ensures |ks| == |d|
  {
    seq(|d|, i requires 0 <= i < |d| => d[i].subject)
  }

  predicate Distinct(s: seq<string>) {
    forall i, j :: 0 <= i < j < |s| ==> s[i] != s[j]
  }

  /** `d[k] = v`: a key already present keeps its place and takes the new
      value; a new key goes at the end. */
  function Put(d: seq<Entry>, k: string, v: int): seq<Entry> {
    if d == [] then [Entry(k, v)]
    else if d[0].subject == k then [Entry(k, v)] + d[1..]
    else [d[0]] + Put(d[1..], k, v)
  }

  /** Storing under a key adds it at the end only when it is new. */
  lemma {:induction false} PutKeys(d: seq<Entry>, k: string, v: int)
    ensures Keys(Put(d, k, v)) == if k in Keys(d) then Keys(d) else Keys(d) + [k]
  {
    if d != [] && d[0].subject != k {
      PutKeys(d[1..], k, v);
      KeysCons(d[0], d[1..]);
      KeysCons(d[0], Put(d[1..], k, v));
      assert d == [d[0]] + d[1..];
      assert k in Keys(d) <==> k in Keys(d[1..]);
    } else if d != [] {
      KeysCons(Entry(k, v), d[1..]);
      KeysCons(d[0], d[1..]);
      assert d == [d[0]] + d[1..];
    }
  }

  lemma KeysCons(e: Entry, d: seq<Entry>)
    ensures Keys([e] + d) == [e.subject] + Keys(d)
  {
  }

  /** In a dictionary without repeated keys, storing v under k changes the
      value at k to v and leaves every other entry where and as it was. */
  lemma {:induction false} PutEntry(d: seq<Entry>, k: string, v: int, j: nat)
    requires Distinct(Keys(d)) && j < |Put(d, k, v)|
    ensures Put(d, k, v)[j].subject == k ==> Put(d, k, v)[j].mark == v
    ensures Put(d, k, v)[j].subject != k ==> j < |d| && Put(d, k, v)[j] == d[j]
  {
    if d != [] {
      if d[0].subject == k {
        if j > 0 {
          assert Keys(d)[0] != Keys(d)[j];
        }
      } else if j > 0 {
        assert forall i :: 0 <= i < |d| - 1 ==> Keys(d[1..])[i] == Keys(d)[i + 1];
        PutEntry(d[1..], k, v, j - 1);
      }
    }
  }

  /** Each string of s once, at the place it first occurs. */
  function FirstOccurrences(s: seq<string>): (r: seq<string>)
    ensures Distinct(r)
    ensures forall x :: x in r <==> x in s
  {
    if s == [] then []
    else
      var prefix := FirstOccurrences(s[..|s| - 1]);
      if s[|s| - 1] in prefix then prefix else prefix + [s[|s| - 1]]
  }

  /** The position of the last occurrence of x in s. */
  function LastIndex(s: seq<string>, x: string): (i: nat)
    requires x in s
    ensures i < |s| && s[i] == x
    ensures forall j :: i < j < |s| ==> s[j] != x
  {
    if s[|s| - 1] == x then |s| - 1 else LastIndex(s[..|s| - 1], x)
  }

  /** The dictionary `get_subject_marks` builds: subject i stored, in order,
      with the formatted mark of cell i + 3. */
  function BuildMarks(subjects: seq<string>, records: seq<Cell>): seq<Entry>
    requires |subjects| == 0 || |subjects| + 2 < |records|
  {
    if subjects == [] then []
    else
      var n := |subjects| - 1;
      Put(BuildMarks(subjects[..n], records), subjects[n], FormatMark(records[n + 3]))
  }

  /** The keys are the subjects, each once, in the order of their first occurrence. */
  lemma {:induction false} BuildMarksKeys(subjects: seq<string>, records: seq<Cell>)
    requires |subjects| == 0 || |subjects| + 2 < |records|
    ensures Keys(BuildMarks(subjects, records)) == FirstOccurrences(subjects)
  {
    if subjects != [] {
      var n := |subjects| - 1;
      BuildMarksKeys(subjects[..n], records);
      PutKeys(BuildMarks(subjects[..n], records), subjects[n], FormatMark(records[n + 3]));
    }
  }

  /** Each subject's value is the formatted mark of the column of its last occurrence. */
  lemma {:induction false} BuildMarksLastWins(subjects: seq<string>, records: seq<Cell>, k: nat)
    requires |subjects| == 0 || |subjects| + 2 < |records|
    requires k < |BuildMarks(subjects, records)|
    ensures var e := BuildMarks(subjects, records)[k];
      && e.subject in subjects
      && e.mark == FormatMark(records[LastIndex(subjects, e.subject) + 3])
  {
    var n := |subjects| - 1;
    var prefix := subjects[..n];
    var previous := BuildMarks(prefix, records);
    var v := FormatMark(records[n + 3]);
    BuildMarksKeys(prefix, records);
    PutEntry(previous, subjects[n], v, k);
    var e := BuildMarks(subjects, records)[k];
    if e.subject != subjects[n] {
      BuildMarksLastWins(prefix, records, k);
      assert e == previous[k];
      assert LastIndex(subjects, e.subject) == LastIndex(prefix, e.subject);
    }
  }

  /** `get_subject_marks(subjects, student_records)`: each subject name mapped
      to the formatted mark three columns further on in the row (after id,
      name and gender); `IndexError` when the row does not reach the last
      subject's column. */
  method GetSubjectMarks(subjects: seq<string>, records: seq<Cell>) returns (r: Result<seq<Entry>>)
    ensures r.Failure? <==> |subjects| > 0 && |records| < |subjects| + 3
    ensures r.Failure? ==> r.error == IndexError
    ensures r.Success? ==> r.value == BuildMarks(subjects, records)
  {
    var marks: seq<Entry> := [];
    for i := 0 to |subjects|
      invariant i > 0 ==> i + 2 < |records|
      invariant marks == BuildMarks(subjects[..i], records)
    {
      if i + 3 >= |records| {
        return Failure(IndexError);
      }
      marks := Put(marks, subjects[i], FormatMark(records[i + 3]));
      assert subjects[..i + 1][..i] == subjects[..i];
    }
    assert subjects[..|subjects|] == subjects;
    return Success(marks);
  }

  /** The nested `format_student_marks(student)` of `generate_pdf`: every
      `None` in the row becomes 0, in place; nothing else changes. */
  method ReplaceNoneWithZero(row: array<Cell>)
    modifies row
    ensures forall i :: 0 <= i < row.Length ==> row[i] == if old(row[i]) == Absent then Int(0) else old(row[i])
    ensures forall i :: 0 <= i < row.Length ==> row[i] != Absent
  {
    for i := 0 to row.Length
      invariant forall j :: 0 <= j < i ==> row[j] == if old(row[j]) == Absent then Int(0) else old(row[j])
      invariant forall j :: i <= j < row.Length ==> row[j] == old(row[j])
    {
      if row[i] == Absent {
        row[i] := Int(0);
      }
    }
  }
}
