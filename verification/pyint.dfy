/** Python's conversions between `int` and decimal `str`: `str(n)` (used by the
    f-strings of `format_time`) and `int(s)` (used to read a timestamp). */
module PyInt {
  import opened Wrappers
  import opened PyStr

  predicate IsDigit(c: char) {
    '0' <= c <= '9'
  }

  function DigitValue(c: char): nat
    requires IsDigit(c)
  {
    (c as int) - ('0' as int)
  }

  function DigitChar(d: nat): (c: char)
    requires d < 10
    ensures IsDigit(c) && DigitValue(c) == d
  {
    (('0' as int) + d) as char
  }

  /** `str(n)` for a non-negative `n`: its decimal digits, no leading zero. */
  function ShowNat(n: nat): (r: string)
    ensures |r| >= 1
    ensures forall k :: 0 <= k < |r| ==> IsDigit(r[k])
    ensures |r| > 1 ==> r[0] != '0'
    decreases n
  {
    if n < 10 then [DigitChar(n)] else ShowNat(n / 10) + [DigitChar(n % 10)]
  }

  /** `str(n)`: a minus sign, then the digits of the magnitude. */
  function ShowInt(n: int): (r: string)
    ensures |r| >= 1
    ensures n < 0 <==> r[0] == '-'
  {
    if n < 0 then "-" + ShowNat(-n) else ShowNat(n)
  }

  /** The digit strings `int()` accepts in base 10: ASCII digits, with single
      underscores allowed only between two digits. */
  predicate DigitGroups(s: string) {
    |s| > 0 && forall k :: 0 <= k < |s| ==> GroupChar(s, k)
  }

  /** Position `k` of `s` holds a digit, or an underscore between two digits. */
  predicate GroupChar(s: string, k: int)
    requires 0 <= k < |s|
  {
    IsDigit(s[k]) || (s[k] == '_' && 0 < k < |s| - 1 && IsDigit(s[k - 1]) && IsDigit(s[k + 1]))
  }

  /** The number a digit string denotes, underscores ignored. */
  function GroupsValue(s: string): nat
    decreases |s|
  {
    if s == [] then 0
    else
      var last := s[|s| - 1];
      if IsDigit(last) then GroupsValue(s[..|s| - 1]) * 10 + DigitValue(last)
      else GroupsValue(s[..|s| - 1])
  }

  /** The information separators U+001C to U+001F. `str.isspace()` accepts them,
      but `int()` does not skip them: it turns non-ASCII whitespace into spaces
      and then skips only the ASCII whitespace tab, line feed, vertical tab,
      form feed, carriage return and space. */
  predicate IsSeparator(c: char) {
    '\U{1C}' <= c <= '\U{1F}'
  }

  /** The whitespace `int()` skips around a number. */
  predicate IntSpace(c: char) {
    IsSpace(c) && !IsSeparator(c)
  }

  /** `s` holds one of the separators `int()` does not skip. */
  predicate HasSeparator(s: string) {
    exists k :: 0 <= k < |s| && IsSeparator(s[k])
  }

  /** `int(s)` for a `str` argument: surrounding whitespace stripped, an optional
      sign, then digit groups; anything else is Python's `ValueError`, here `None`.
      A separator is never skipped and is no sign, digit or underscore, so text
      holding one is rejected wherever it stands; without one, the whitespace
      `int()` skips is exactly what `Strip` removes. */
  function ParseInt(s: string): (r: Option<int>)
    ensures r.Some? ==> Strip(s) != [] && IsDigit(Strip(s)[|Strip(s)| - 1])
    ensures r.Some? && r.value < 0 ==> Strip(s)[0] == '-'
    ensures r.Some? ==> forall k :: 0 <= k < |s| ==> !IsSeparator(s[k])
  {
    if HasSeparator(s) then None else ReadSigned(Strip(s))
  }

  /** The number in text with nothing left to strip: an optional sign, then
      digit groups. */
  function ReadSigned(t: string): (r: Option<int>)
    ensures r.Some? ==> t != [] && IsDigit(t[|t| - 1])
    ensures r.Some? && r.value < 0 ==> t[0] == '-'
  {
    if |t| > 0 && (t[0] == '-' || t[0] == '+') then
      var body := t[1..];
      if DigitGroups(body) then
        assert GroupChar(body, |body| - 1) && t[|t| - 1] == body[|body| - 1];
        var magnitude: int := GroupsValue(body);
        Some(if t[0] == '-' then -magnitude else magnitude)
      else None
    else if DigitGroups(t) then
      assert GroupChar(t, |t| - 1);
      Some(GroupsValue(t))
    else None
  }

  /** What `int()` accepts: digit groups with an optional sign, padded on either
      side with whitespace it skips, read as their value with the sign applied. */
  lemma ParseIntAccepts(a: string, sign: string, d: string, b: string)
    requires forall k :: 0 <= k < |a| ==> IntSpace(a[k])
    requires forall k :: 0 <= k < |b| ==> IntSpace(b[k])
    requires sign == "" || sign == "+" || sign == "-"
    requires DigitGroups(d)
    ensures var v: int := GroupsValue(d);
      ParseInt(a + sign + d + b) == Some(if sign == "-" then -v else v)
  {
    StripSignedDigits(a, sign, d, b);
    NoSeparatorInPadded(a, sign, d, b);
    ReadSignedDigits(sign, d);
  }

  /** Padding `int()` skips, a sign and digit groups hold no separator. */
  lemma NoSeparatorInPadded(a: string, sign: string, d: string, b: string)
    requires forall k :: 0 <= k < |a| ==> IntSpace(a[k])
    requires forall k :: 0 <= k < |b| ==> IntSpace(b[k])
    requires sign == "" || sign == "+" || sign == "-"
    requires DigitGroups(d)
    ensures !HasSeparator(a + sign + d + b)
  {
    var s := a + sign + d + b;
    forall k | 0 <= k < |s| ensures !IsSeparator(s[k]) {
      if k < |a| {
        assert s[k] == a[k];
      } else if k < |a| + |sign| {
        assert s[k] == sign[k - |a|];
      } else if k < |a| + |sign| + |d| {
        assert s[k] == d[k - |a| - |sign|] && GroupChar(d, k - |a| - |sign|);
      } else {
        assert s[k] == b[k - |a| - |sign| - |d|];
      }
    }
  }

  /** A sign and digit groups have no whitespace at either end, so padding them
      and stripping gives them back. */
  lemma StripSignedDigits(a: string, sign: string, d: string, b: string)
    requires forall k :: 0 <= k < |a| ==> IntSpace(a[k])
    requires forall k :: 0 <= k < |b| ==> IntSpace(b[k])
    requires sign == "" || sign == "+" || sign == "-"
    requires DigitGroups(d)
    ensures Strip(a + sign + d + b) == sign + d
  {
    var m := sign + d;
    assert GroupChar(d, 0) && GroupChar(d, |d| - 1);
    assert m[|m| - 1] == d[|d| - 1];
    assert !IsSpace(m[0]) by {
      if sign == "" {
        assert m[0] == d[0];
      }
    }
    assert a + sign + d + b == a + m + b;
    StripPadded(a, m, b);
  }

  /** A sign, if any, followed by digit groups reads as their value with the
      sign applied. */
  lemma ReadSignedDigits(sign: string, d: string)
    requires sign == "" || sign == "+" || sign == "-"
    requires DigitGroups(d)
    ensures var v: int := GroupsValue(d);
      ReadSigned(sign + d) == Some(if sign == "-" then -v else v)
  {
    var t := sign + d;
    if sign == "" {
      assert t == d && GroupChar(d, 0);
    } else {
      assert t[1..] == d;
    }
  }

  /** Reading back the digits `str(n)` writes gives `n`. */
  lemma {:induction false} ShowNatValue(n: nat)
    ensures GroupsValue(ShowNat(n)) == n
    decreases n
  {
    if n >= 10 {
      var s := ShowNat(n);
      assert s[..|s| - 1] == ShowNat(n / 10);
      ShowNatValue(n / 10);
    }
  }

  /** `int(str(n)) == n`: the decimal text of any integer reads back as it. */
  lemma ParseShowInt(n: int)
    ensures ParseInt(ShowInt(n)) == Some(n)
  {
    var m: nat := if n < 0 then -n else n;
    var sign, digits := if n < 0 then "-" else "", ShowNat(m);
    ShowNatValue(m);
    assert DigitGroups(digits);
    assert ShowInt(n) == sign + digits;
    ParseUnpadded(sign, digits);
  }

  /** A sign and digit groups with no padding at all. */
  lemma ParseUnpadded(sign: string, d: string)
    requires sign == "" || sign == "+" || sign == "-"
    requires DigitGroups(d)
    ensures var v: int := GroupsValue(d);
      ParseInt(sign + d) == Some(if sign == "-" then -v else v)
  {
    var t := sign + d;
    assert GroupChar(d, 0) && GroupChar(d, |d| - 1);
    assert t[|t| - 1] == d[|d| - 1];
    assert !IsSpace(t[0]) by {
      if sign == "" {
        assert t[0] == d[0];
      }
    }
    StripUnpadded(t);
    ReadSignedDigits(sign, d);
    NoSeparatorInSigned(sign, d);
  }

  /** A sign and digit groups hold no separator. */
  lemma NoSeparatorInSigned(sign: string, d: string)
    requires sign == "" || sign == "+" || sign == "-"
    requires DigitGroups(d)
    ensures !HasSeparator(sign + d)
  {
    var t := sign + d;
    forall k | 0 <= k < |t| ensures !IsSeparator(t[k]) {
      if k >= |sign| {
        assert t[k] == d[k - |sign|] && GroupChar(d, k - |sign|);
      }
    }
  }

  /** `str(n)` has no whitespace to strip: it starts with '-' or a digit and
      ends with a digit. */
  lemma ShowIntUnpadded(n: int)
    ensures Strip(ShowInt(n)) == ShowInt(n)
  {
    var s := ShowInt(n);
    var digits := ShowNat(if n < 0 then -n else n);
    assert s[|s| - 1] == digits[|digits| - 1];
    assert IsDigit(s[|s| - 1]);
    assert s[0] == '-' || s[0] == digits[0];
    StripUnpadded(s);
  }

  /** A string with a character that is neither whitespace `int()` skips, sign,
      digit nor underscore is never an integer. */
  lemma ParseIntRejects(s: string, i: int)
    requires 0 <= i < |s|
    requires !IntSpace(s[i]) && !IsDigit(s[i]) && s[i] !in "+-_"
    ensures ParseInt(s) == None
  {
    if IsSeparator(s[i]) {
      assert HasSeparator(s);
      return;
    }
    StripIsInfix(s);
    var lead := |s| - |TrimStart(s)|;
    var t := Strip(s);
    assert lead <= i < lead + |t|;
    var j := i - lead;
    assert t[j] == s[i];
    assert !IsDigit(t[j]) && t[j] != '_' && t[j] != '-' && t[j] != '+';
    if |t| > 0 && (t[0] == '-' || t[0] == '+') {
      assert j > 0;
      var body, k := t[1..], j - 1;
      assert body[k] == s[i];
      assert !GroupChar(body, k);
      assert !DigitGroups(body);
    } else {
      assert !GroupChar(t, j);
      assert !DigitGroups(t);
    }
  }
}
