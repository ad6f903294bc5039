/**
 * The text operations the sales pipeline applies to raw fields: Python's
 * str.strip(), str.split("|"), str.replace(",", ""), str.startswith, the
 * int() and float() conversions of a field, and the ordering Python uses
 * when it compares two str values.
 */
module Strings {
  import opened Options

  /** The characters Python's str.isspace() accepts, which str.strip() removes. */
  predicate IsSpace(c: char) {
    var n := c as int;
    n == 0x20 || 0x09 <= n <= 0x0D || 0x1C <= n <= 0x1F || n == 0x85 || n == 0xA0
    || n == 0x1680 || 0x2000 <= n <= 0x200A || n == 0x2028 || n == 0x2029
    || n == 0x202F || n == 0x205F || n == 0x3000
  }

  predicate AllSpace(s: string) {
    forall i :: 0 <= i < |s| ==> IsSpace(s[i])
  }

  /** Neither end of s is whitespace. */
  predicate Stripped(s: string) {
    s == [] || (!IsSpace(s[0]) && !IsSpace(s[|s| - 1]))
  }

  /**
   * Python's s.strip(): s with its leading and trailing whitespace removed,
   * so that it starts and ends with a non-space (or is empty).
   */
  function Strip(s: string): (r: string)
    ensures Stripped(r) && |r| <= |s|
  {
    if s != [] && IsSpace(s[0]) then Strip(s[1..])
    else if s != [] && IsSpace(s[|s| - 1]) then Strip(s[..|s| - 1])
    else s
  }

  /**
   * What strip() removes is whitespace at the two ends: the result is the
   * slice s[i..j] where everything before i and from j on is whitespace.
   */
  lemma {:induction false} StripSlice(s: string) returns (i: nat, j: nat)
    ensures i <= j <= |s| && Strip(s) == s[i..j]
    ensures AllSpace(s[..i]) && AllSpace(s[j..])
  {
    if s != [] && IsSpace(s[0]) {
      var i', j' := StripSlice(s[1..]);
      assert Strip(s) == Strip(s[1..]);
      i, j := i' + 1, j' + 1;
      SliceAfterFirst(s, i', j');
    } else if s != [] && IsSpace(s[|s| - 1]) {
      i, j := StripSlice(s[..|s| - 1]);
      assert Strip(s) == Strip(s[..|s| - 1]);
      SliceBeforeLast(s, i, j);
    } else {
      i, j := 0, |s|;
      assert s[i..j] == s;
    }
  }

  /** A slice of s[1..] with whitespace around it, when s[0] is whitespace too, as a slice of s. */
  lemma SliceAfterFirst(s: string, i: nat, j: nat)
    requires s != [] && IsSpace(s[0]) && i <= j <= |s| - 1
    requires AllSpace(s[1..][..i]) && AllSpace(s[1..][j..])
    ensures s[i + 1..j + 1] == s[1..][i..j]
    ensures AllSpace(s[..i + 1]) && AllSpace(s[j + 1..])
  {
    var t := s[1..];
    assert s[i + 1..j + 1] == t[i..j] by {
      assert forall k :: 0 <= k < j - i ==> s[i + 1..j + 1][k] == s[i + 1 + k] == t[i..j][k];
    }
    assert s[..i + 1] == [s[0]] + t[..i];
    SpaceCons(s[0], t[..i]);
    assert s[j + 1..] == t[j..];
  }

  /** A slice of s[..|s| - 1] with whitespace around it, when the last character is whitespace too. */
  lemma SliceBeforeLast(s: string, i: nat, j: nat)
    requires s != [] && IsSpace(s[|s| - 1]) && i <= j <= |s| - 1
    requires AllSpace(s[..|s| - 1][..i]) && AllSpace(s[..|s| - 1][j..])
    ensures s[i..j] == s[..|s| - 1][i..j]
    ensures AllSpace(s[..i]) && AllSpace(s[j..])
  {
    var t := s[..|s| - 1];
    assert s[..i] == t[..i];
    assert s[j..] == t[j..] + [s[|s| - 1]];
    SpaceSnoc(t[j..], s[|s| - 1]);
  }

  lemma SpaceCons(c: char, s: string)
    requires IsSpace(c) && AllSpace(s)
    ensures AllSpace([c] + s)
  {
    assert forall k :: 0 < k <= |s| ==> ([c] + s)[k] == s[k - 1];
  }

  lemma SpaceSnoc(s: string, c: char)
    requires IsSpace(c) && AllSpace(s)
    ensures AllSpace(s + [c])
  {
    assert forall k :: 0 <= k < |s| ==> (s + [c])[k] == s[k];
  }

  /** A string that has nothing to strip is its own strip. */
  lemma StripStripped(s: string)
    requires Stripped(s)
    ensures Strip(s) == s
  {
  }

  lemma StripIdempotent(s: string)
    ensures Strip(Strip(s)) == Strip(s)
  {
    StripStripped(Strip(s));
  }

  /** Python's s.startswith(c) for a one-character prefix. */
  predicate StartsWith(s: string, c: char) {
    |s| > 0 && s[0] == c
  }

  // ---------------------------------------------------------------------
  // str.split(sep) and its inverse, sep.join(parts)
  // ---------------------------------------------------------------------

  /**
   * Python's s.split(sep) for a one-character separator: the maximal pieces
   * between separators, always at least one (possibly empty) piece.
   */
  function Split(s: string, sep: char): (parts: seq<string>)
    ensures |parts| >= 1
  {
    if s == [] then [""]
    else
      var rest := Split(s[1..], sep);
      if s[0] == sep then [""] + rest
      else [[s[0]] + rest[0]] + rest[1..]
  }

  /** No part of a split holds the separator. */
  lemma {:induction false} SplitParts(s: string, sep: char)
    ensures forall i :: 0 <= i < |Split(s, sep)| ==> sep !in Split(s, sep)[i]
  {
    if s != [] {
      SplitParts(s[1..], sep);
    }
  }

  /** Python's sep.join(parts). */
  function Join(parts: seq<string>, sep: char): string
    requires |parts| >= 1
  {
    if |parts| == 1 then parts[0] else parts[0] + [sep] + Join(parts[1..], sep)
  }

  /** A line splits into one more field than it has separators. */
  lemma {:induction false} SplitCount(s: string, sep: char)
    ensures |Split(s, sep)| == multiset(s)[sep] + 1
  {
    if s != [] {
      assert s == [s[0]] + s[1..];
      SplitCount(s[1..], sep);
    }
  }

  /** Joining the fields of a split gives back the line. */
  lemma {:induction false} JoinSplit(s: string, sep: char)
    ensures Join(Split(s, sep), sep) == s
  {
    if s != [] {
      var rest := Split(s[1..], sep);
      JoinSplit(s[1..], sep);
      if s[0] == sep {
        assert ([""] + rest)[1..] == rest;
      } else {
        var parts := [[s[0]] + rest[0]] + rest[1..];
        if |rest| > 1 {
          assert parts[1..] == rest[1..];
        }
      }
    }
  }

  lemma {:induction false} SplitPrefix(a: string, t: string, sep: char)
    requires sep !in a
    ensures Split(a + t, sep) == [a + Split(t, sep)[0]] + Split(t, sep)[1..]
  {
    if a != [] {
      assert (a + t)[1..] == a[1..] + t;
      assert (a + t)[0] == a[0];
      SplitPrefix(a[1..], t, sep);
      assert [a[0]] + (a[1..] + Split(t, sep)[0]) == a + Split(t, sep)[0];
    } else {
      var parts := Split(t, sep);
      assert a + t == t;
      assert a + parts[0] == parts[0];
      assert parts == [parts[0]] + parts[1..];
    }
  }

  /** Splitting the join of separator-free fields gives back the fields. */
  lemma {:induction false} SplitJoin(parts: seq<string>, sep: char)
    requires |parts| >= 1
    requires forall i :: 0 <= i < |parts| ==> sep !in parts[i]
    ensures Split(Join(parts, sep), sep) == parts
  {
    if |parts| == 1 {
      SplitPrefix(parts[0], "", sep);
      assert parts[0] + "" == parts[0];
    } else {
      var tail := Join(parts[1..], sep);
      SplitJoin(parts[1..], sep);
      assert parts[0] + [sep] + tail == parts[0] + ([sep] + tail);
      SplitPrefix(parts[0], [sep] + tail, sep);
      assert ([sep] + tail)[1..] == tail;
      assert parts[0] + "" == parts[0];
      assert parts == [parts[0]] + parts[1..];
    }
  }

  // ---------------------------------------------------------------------
  // str.replace(c, "")
  // ---------------------------------------------------------------------

  /**
   * Python's s.replace(c, "") for a one-character c: every other character
   * is kept, in order, and no c is left.
   */
  function RemoveAll(s: string, c: char): (r: string)
    ensures c !in r && |r| <= |s|
  {
    if s == [] then ""
    else RemoveAll(s[..|s| - 1], c) + (if s[|s| - 1] == c then "" else [s[|s| - 1]])
  }

  /** RemoveAll drops every c and keeps every other character, as often as it occurs. */
  lemma {:induction false} RemoveAllCounts(s: string, c: char)
    ensures |RemoveAll(s, c)| == |s| - multiset(s)[c]
    ensures forall x :: x != c ==> multiset(RemoveAll(s, c))[x] == multiset(s)[x]
  {
    if s != [] {
      assert s == s[..|s| - 1] + [s[|s| - 1]];
      RemoveAllCounts(s[..|s| - 1], c);
    }
  }

  lemma {:induction false} RemoveAbsent(s: string, c: char)
    requires c !in s
    ensures RemoveAll(s, c) == s
  {
    if s != [] {
      assert s == s[..|s| - 1] + [s[|s| - 1]];
      RemoveAbsent(s[..|s| - 1], c);
    }
  }

  // ---------------------------------------------------------------------
  // int() and float() of a field
  // ---------------------------------------------------------------------

  predicate IsDigit(c: char) {
    '0' <= c <= '9'
  }

  predicate AllDigits(s: string) {
    forall i :: 0 <= i < |s| ==> IsDigit(s[i])
  }

  function DigitValue(c: char): (d: nat)
    requires IsDigit(c)
    ensures d < 10
  {
    (c as int) - ('0' as int)
  }

  function DigitChar(d: nat): (c: char)
    requires d < 10
    ensures IsDigit(c) && DigitValue(c) == d
  {
    (('0' as int) + d) as char
  }

  /** The value of a string of decimal digits, most significant first. */
  function DigitsValue(s: string): nat
    requires AllDigits(s)
  {
    if s == [] then 0 else DigitsValue(s[..|s| - 1]) * 10 + DigitValue(s[|s| - 1])
  }

  /** n / 10^k, the value of a fraction with k digits whose digits read n. */
  function Shifted(n: nat, k: nat): (r: real)
    ensures 0.0 <= r
  {
    if k == 0 then n as real else Shifted(n, k - 1) / 10.0
  }

  /** The shortest decimal spelling of n; its digits evaluate back to n. */
  function NatToString(n: nat): (s: string)
    ensures s != [] && AllDigits(s) && DigitsValue(s) == n
  {
    if n < 10 then [DigitChar(n)]
    else
      var s := NatToString(n / 10) + [DigitChar(n % 10)];
      assert s[..|s| - 1] == NatToString(n / 10);
      s
  }

  /** str(n) for a Python int. */
  function IntToString(n: int): string {
    if n < 0 then "-" + NatToString(-n) else NatToString(n)
  }

  /** Leading zeros do not change the value of a digit string. */
  lemma {:induction false} LeadingZeros(z: string, s: string)
    requires forall i :: 0 <= i < |z| ==> z[i] == '0'
    requires AllDigits(s)
    ensures AllDigits(z + s) && DigitsValue(z + s) == DigitsValue(s)
  {
    if s == [] {
      assert z + s == z;
      ZerosValue(z);
    } else {
      var s' := s[..|s| - 1];
      assert (z + s)[..|z + s| - 1] == z + s';
      LeadingZeros(z, s');
    }
  }

  lemma {:induction false} ZerosValue(z: string)
    requires forall i :: 0 <= i < |z| ==> z[i] == '0'
    ensures AllDigits(z) && DigitsValue(z) == 0
  {
    if z != [] {
      ZerosValue(z[..|z| - 1]);
    }
  }

  /** A digit string whose value is 0 is all zeros. */
  lemma {:induction false} ValueZeroAllZeros(s: string)
    requires AllDigits(s) && DigitsValue(s) == 0
    ensures forall i :: 0 <= i < |s| ==> s[i] == '0'
  {
    if s != [] {
      var init := s[..|s| - 1];
      ValueZeroAllZeros(init);
      assert DigitValue(s[|s| - 1]) == 0;
      forall i | 0 <= i < |s|
        ensures s[i] == '0'
      {
        if i < |init| {
          assert s[i] == init[i];
        }
      }
    }
  }

  /**
   * Every non-empty digit string is some leading zeros followed by the
   * shortest spelling of its value.
   */
  lemma {:induction false} DigitsSpelling(d: string) returns (z: string)
    requires AllDigits(d) && d != []
    ensures forall i :: 0 <= i < |z| ==> z[i] == '0'
    ensures d == z + NatToString(DigitsValue(d))
  {
    var init, last := d[..|d| - 1], d[|d| - 1];
    assert d == init + [last];
    var n := DigitsValue(d);
    assert DigitChar(DigitValue(last)) == last;
    if init == [] || DigitsValue(init) == 0 {
      z := init;
      if init != [] {
        ValueZeroAllZeros(init);
      }
      assert NatToString(n) == [last];
    } else {
      z := DigitsSpelling(init);
      var v := DigitsValue(init);
      assert n / 10 == v && n % 10 == DigitValue(last);
      assert NatToString(n) == NatToString(v) + [last];
    }
  }

  /** The first index of c in s, or |s| when c does not occur. */
  function IndexOf(s: string, c: char): (k: nat)
    ensures k <= |s|
    ensures k < |s| ==> s[k] == c
    ensures forall i :: 0 <= i < k ==> s[i] != c
  {
    if s == [] then 0 else if s[0] == c then 0 else 1 + IndexOf(s[1..], c)
  }

  /** A leading '-' or '+' of a stripped numeral, and the rest. */
  function SplitSign(t: string): (r: (bool, string))
    ensures r.1 == if t != "" && (t[0] == '-' || t[0] == '+') then t[1..] else t
  {
    if t != "" && (t[0] == '-' || t[0] == '+') then (t[0] == '-', t[1..]) else (false, t)
  }

  /** The value of s read as decimal digits, or None when s holds anything else. */
  function ReadDigits(s: string): Option<nat> {
    if s == [] then Some(0)
    else
      match ReadDigits(s[..|s| - 1])
      case None => None
      case Some(v) => if IsDigit(s[|s| - 1]) then Some(v * 10 + DigitValue(s[|s| - 1])) else None
  }

  /** ReadDigits accepts exactly the digit strings, with their value. */
  lemma {:induction false} ReadDigitsValue(s: string)
    ensures ReadDigits(s) == if AllDigits(s) then Some(DigitsValue(s)) else None
  {
    if s != [] {
      ReadDigitsValue(s[..|s| - 1]);
      if !IsDigit(s[|s| - 1]) {
        assert !AllDigits(s);
      } else if !AllDigits(s[..|s| - 1]) {
        var k :| 0 <= k < |s| - 1 && !IsDigit(s[..|s| - 1][k]);
        assert !IsDigit(s[k]);
      }
    }
  }

  /**
   * The whitespace int() and float() skip at the ends of a str: the
   * str.isspace() characters except U+001C..U+001F. Every character below
   * U+007F is read as it stands, and of those only tab, line feed, vertical
   * tab, form feed, carriage return and space count as whitespace; every
   * other str.isspace() character is read as a space.
   */
  predicate IsNumberSpace(c: char) {
    IsSpace(c) && !('\U{1C}' <= c <= '\U{1F}')
  }

  /** The text int() and float() go on to read: s without the whitespace they skip at its ends. */
  function NumberText(s: string): (r: string)
    ensures |r| <= |s|
    ensures r == [] || (!IsNumberSpace(r[0]) && !IsNumberSpace(r[|r| - 1]))
    ensures Stripped(s) ==> r == s
  {
    if s != [] && IsNumberSpace(s[0]) then NumberText(s[1..])
    else if s != [] && IsNumberSpace(s[|s| - 1]) then NumberText(s[..|s| - 1])
    else s
  }

  /**
   * Python's int(s) on a str: optional surrounding whitespace, an optional
   * sign, then one or more ASCII digits; anything else raises ValueError,
   * modelled as None.
   */
  function ParseInt(s: string): Option<int> {
    var (negative, body) := SplitSign(NumberText(s));
    if body == "" then None
    else
      match ReadDigits(body)
      case None => None
      case Some(v) => Some(if negative then -(v as int) else v as int)
  }

  /** int() skips ASCII whitespace around a field. */
  lemma ParseIntAsciiSpace()
    ensures ParseInt(" 5\t") == Some(5)
  {
    assert NumberText(" 5\t") == NumberText("5\t") == NumberText("5") == "5";
    ReadDigitsValue("5");
  }

  /** int() does not skip U+001C..U+001F, although strip() removes them. */
  lemma ParseIntSeparatorNotSpace()
    ensures ParseInt("5\U{1C}") == None
    ensures Strip("5\U{1C}") == "5"
  {
    assert NumberText("5\U{1C}") == "5\U{1C}";
    assert "5\U{1C}"[..1] == "5";
  }

  /**
   * int() skips whitespace outside ASCII, such as U+2000, but a str holding
   * such a character still has U+001C..U+001F read as they stand.
   */
  lemma ParseIntWideSpace()
    ensures ParseInt("5\U{2000}") == Some(5)
    ensures ParseInt("5\U{1C}\U{2000}") == None
  {
    assert NumberText("5\U{2000}") == "5" by {
      assert "5\U{2000}"[..1] == "5";
    }
    ReadDigitsValue("5");
    var wide := "5\U{1C}\U{2000}";
    assert NumberText(wide) == "5\U{1C}" by {
      assert IsNumberSpace(wide[2]) && wide[..2] == "5\U{1C}";
    }
  }

  /** Digits with at most one '.', and at least one digit, read exactly. */
  function UnsignedDecimal(body: string): Option<real> {
    var dot := IndexOf(body, '.');
    var whole := body[..dot];
    var frac := if dot < |body| then body[dot + 1..] else "";
    if whole == "" && frac == "" then None
    else
      match (ReadDigits(whole), ReadDigits(frac))
      case (Some(w), Some(f)) => Some(w as real + Shifted(f, |frac|))
      case _ => None
  }

  /**
   * Python's float(s) on a str, restricted to plain decimal notation:
   * optional surrounding whitespace, an optional sign, digits with at most
   * one '.', and at least one digit. The value is exact.
   */
  function ParseDecimal(s: string): Option<real> {
    var (negative, body) := SplitSign(NumberText(s));
    match UnsignedDecimal(body)
    case None => None
    case Some(v) => Some(if negative then -v else v)
  }

  /** int() reads back what str() writes. */
  lemma ParseIntRoundTrip(n: int)
    ensures ParseInt(IntToString(n)) == Some(n)
  {
    var s := IntToString(n);
    var d := NatToString(if n < 0 then -n else n);
    assert NumberText(s) == s by {
      assert Stripped(s);
    }
    ReadDigitsValue(d);
    if n < 0 {
      assert s[1..] == d;
    }
  }

  lemma NoDotInDigits(s: string)
    requires AllDigits(s)
    ensures IndexOf(s, '.') == |s|
  {
  }

  /** Every string int() accepts, float() accepts with the same value. */
  lemma ParseIntThenDecimal(s: string, n: int)
    requires ParseInt(s) == Some(n)
    ensures ParseDecimal(s) == Some(n as real)
  {
    var (negative, body) := SplitSign(NumberText(s));
    ReadDigitsValue(body);
    NoDotInDigits(body);
    assert body[..|body|] == body;
    ReadDigitsValue("");
  }

  // ---------------------------------------------------------------------
  // Ordering of str values
  // ---------------------------------------------------------------------

  /** Python's a < b on str: lexicographic by code point, a proper prefix first. */
  predicate StrLt(a: string, b: string) {
    |b| > 0 && (|a| == 0 || a[0] < b[0] || (a[0] == b[0] && StrLt(a[1..], b[1..])))
  }

  /** Python's a <= b on str. */
  predicate StrLe(a: string, b: string) {
    a == b || StrLt(a, b)
  }

  lemma {:induction false} StrLtIrreflexive(a: string)
    ensures !StrLt(a, a)
  {
    if |a| > 0 {
      StrLtIrreflexive(a[1..]);
    }
  }

  lemma {:induction false} StrLtTransitive(a: string, b: string, c: string)
    requires StrLt(a, b) && StrLt(b, c)
    ensures StrLt(a, c)
  {
    if |a| > 0 && a[0] == b[0] && b[0] == c[0] {
      StrLtTransitive(a[1..], b[1..], c[1..]);
    }
  }

  lemma {:induction false} StrLtTotal(a: string, b: string)
    requires a != b
    ensures StrLt(a, b) || StrLt(b, a)
  {
    if |a| > 0 && |b| > 0 && a[0] == b[0] {
      assert a == [a[0]] + a[1..] && b == [b[0]] + b[1..];
      StrLtTotal(a[1..], b[1..]);
    }
  }

  lemma StrLtAsymmetric(a: string, b: string)
    requires StrLt(a, b)
    ensures !StrLt(b, a)
  {
    if StrLt(b, a) {
      StrLtTransitive(a, b, a);
      StrLtIrreflexive(a);
    }
  }
}
