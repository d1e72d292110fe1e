/** `validate_email`: `re.match(r'^[a-zA-Z0-9._-]+@[a-zA-Z0-9.-]+\.[a-zA-Z]{2,}$', email)`. */
module Email {

  predicate IsLetter(c: char) {
    ('a' <= c && c <= 'z') || ('A' <= c && c <= 'Z')
  }

  predicate IsAlnum(c: char) {
    IsLetter(c) || ('0' <= c && c <= '9')
  }

  /** `[a-zA-Z0-9._-]`: the characters of the local part. */
  predicate LocalChar(c: char) {
    IsAlnum(c) || c == '.' || c == '_' || c == '-'
  }

  /** `[a-zA-Z0-9.-]`: the characters of the domain before its final dot. */
  predicate DomainChar(c: char) {
    IsAlnum(c) || c == '.' || c == '-'
  }

  /** `s` is `local @ head . tld` with the '@' at `at` and the final dot at `dot`:
      a non-empty local part, a non-empty head, and a top-level part of two or
      more letters reaching the end of `s`. */
  predicate Shape(s: string, at: int, dot: int) {
    && 0 < at && at + 1 < dot && dot + 2 < |s|
    && s[at] == '@' && s[dot] == '.'
    && (forall k :: 0 <= k < at ==> LocalChar(s[k]))
    && (forall k :: at < k < dot ==> DomainChar(s[k]))
    && (forall k :: dot < k < |s| ==> IsLetter(s[k]))
  }

  /** The pattern matches the whole of `s`. */
  ghost predicate FullMatch(s: string) {
    exists at, dot :: Shape(s, at, dot)
  }

  /** What `re.match` with this pattern accepts: Python's `$` also matches just
      before a single newline that ends the string. */
  ghost predicate PatternMatches(s: string) {
    FullMatch(s) || (|s| > 0 && s[|s| - 1] == '\n' && FullMatch(s[..|s| - 1]))
  }

  /** Length of the longest prefix of `s` made of local-part characters. */
  function LocalRun(s: string): (n: nat)
    ensures n <= |s|
    ensures forall k :: 0 <= k < n ==> LocalChar(s[k])
    ensures n < |s| ==> !LocalChar(s[n])
    decreases |s|
  {
    if s != [] && LocalChar(s[0]) then 1 + LocalRun(s[1..]) else 0
  }

  /** Length of the longest suffix of `s` made of ASCII letters. */
  function LetterRun(s: string): (n: nat)
    ensures n <= |s|
    ensures forall k :: |s| - n <= k < |s| ==> IsLetter(s[k])
    ensures n < |s| ==> !IsLetter(s[|s| - n - 1])
    decreases |s|
  {
    if s != [] && IsLetter(s[|s| - 1]) then 1 + LetterRun(s[..|s| - 1]) else 0
  }

  /** Where the final dot must sit: just before the trailing letters. */
  function TldDot(s: string): int {
    |s| - LetterRun(s) - 1
  }

  /** Whole-string match without backtracking: the local part runs up to the
      first character outside its class, which must be the '@'; the top-level
      part is the trailing run of letters, which must be preceded by the dot. */
  predicate WholeMatch(s: string) {
    Shape(s, LocalRun(s), TldDot(s))
  }

  lemma WholeMatchIff(s: string)
    ensures WholeMatch(s) <==> FullMatch(s)
  {
    var at := LocalRun(s);
    var dot := TldDot(s);
    if FullMatch(s) {
      var a, d :| Shape(s, a, d);
      assert !LocalChar(s[a]);
      assert at == a;
      assert !IsLetter(s[d]);
      assert dot == d;
    }
  }

  /** `validate_email(email)`. */
  function ValidateEmail(s: string): (r: bool)
    ensures r ==> |s| >= 6 && LocalChar(s[0])
  {
    WholeMatch(s) || (|s| > 0 && s[|s| - 1] == '\n' && WholeMatch(s[..|s| - 1]))
  }

  lemma ValidateEmailIff(s: string)
    ensures ValidateEmail(s) <==> PatternMatches(s)
  {
    WholeMatchIff(s);
    if |s| > 0 {
      WholeMatchIff(s[..|s| - 1]);
    }
  }

  /** A whole match has exactly one '@', and it is not the first character: the
      local part is not empty. */
  lemma SingleAt(s: string)
    requires WholeMatch(s)
    ensures '@' in s && s[0] != '@'
    ensures forall i, j :: 0 <= i < j < |s| && s[i] == '@' ==> s[j] != '@'
  {
    var at := LocalRun(s);
    var dot := TldDot(s);
    assert Shape(s, at, dot);
    forall j | 0 <= j < |s| && j != at
      ensures s[j] != '@'
    {
      if j < at {
        assert LocalChar(s[j]);
      } else if j < dot {
        assert DomainChar(s[j]);
      } else if j > dot {
        assert IsLetter(s[j]);
      }
    }
  }

  /** The top-level part of a match: a dot preceded by a domain character, then
      two or more ASCII letters to the end. */
  lemma ShapeTld(s: string, at: int, dot: int)
    requires Shape(s, at, dot)
    ensures 0 < dot < |s| - 2 && s[dot] == '.' && s[dot - 1] != '@'
    ensures forall k :: dot < k < |s| ==> IsLetter(s[k])
  {
    assert DomainChar(s[dot - 1]);
  }

  /** An address `validate_email` accepts that contains no newline has exactly one
      '@' with a non-empty local part before it, and a domain ending in '.' and
      at least two ASCII letters. */
  lemma AcceptedShape(s: string)
    requires ValidateEmail(s) && '\n' !in s
    ensures '@' in s && s[0] != '@'
    ensures forall i, j :: 0 <= i < j < |s| && s[i] == '@' ==> s[j] != '@'
    ensures var dot := TldDot(s);
      && 0 < dot < |s| - 2 && s[dot] == '.' && s[dot - 1] != '@'
      && forall k :: dot < k < |s| ==> IsLetter(s[k])
  {
    assert WholeMatch(s);
    SingleAt(s);
    ShapeTld(s, LocalRun(s), TldDot(s));
  }

  /** In an accepted address without a newline, everything before the '@' is a
      local-part character and everything between the '@' and the final dot is
      a domain character. */
  lemma AcceptedCharsets(s: string, at: int)
    requires ValidateEmail(s) && '\n' !in s
    requires 0 <= at < |s| && s[at] == '@'
    ensures forall k :: 0 <= k < at ==> LocalChar(s[k])
    ensures forall k :: at < k < TldDot(s) ==> DomainChar(s[k])
  {
    assert WholeMatch(s);
    SingleAt(s);
    assert at == LocalRun(s);
  }

  /** The newline quirk of `$`: an accepted address is still accepted with one
      newline appended, but never with two. */
  lemma TrailingNewline(s: string)
    requires ValidateEmail(s) && '\n' !in s
    ensures ValidateEmail(s + "\n")
    ensures !ValidateEmail(s + "\n\n")
  {
    assert (s + "\n")[..|s|] == s;
    var t := s + "\n\n";
    assert !WholeMatch(t) by {
      assert !IsLetter(t[|t| - 1]);
    }
    assert !WholeMatch(t[..|t| - 1]) by {
      var u := t[..|t| - 1];
      assert !IsLetter(u[|u| - 1]);
    }
  }
}
