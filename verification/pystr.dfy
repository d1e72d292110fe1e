/** The Python `str` operations the routes use: `strip()`, `replace(c, '')`,
    the `in` operator on substrings and `split(sep)`. */
module PyStr {
  import opened Wrappers
  import opened Seqs

  /** Characters Python's `str.isspace()` accepts; `str.strip()` with no
      argument removes exactly these from both ends. */
  predicate IsSpace(c: char) {
    ('\t' <= c <= '\r') || ('\U{1C}' <= c <= '\U{1F}') || c == ' ' || c == '\U{85}' || c == '\U{A0}'
    || c == '\U{1680}' || ('\U{2000}' <= c <= '\U{200A}') || c == '\U{2028}' || c == '\U{2029}'
    || c == '\U{202F}' || c == '\U{205F}' || c == '\U{3000}'
  }

  /** The number of whitespace characters `s` starts with. */
  function LeadingSpaces(s: string): (n: nat)
    ensures n <= |s| && (n == |s| || !IsSpace(s[n]))
    ensures forall k :: 0 <= k < n ==> IsSpace(s[k])
    decreases |s|
  {
    if s != [] && IsSpace(s[0]) then 1 + LeadingSpaces(s[1..]) else 0
  }

  /** The number of whitespace characters `s` ends with. */
  function TrailingSpaces(s: string): (n: nat)
    ensures n <= |s| && (n == |s| || !IsSpace(s[|s| - n - 1]))
    ensures forall k :: |s| - n <= k < |s| ==> IsSpace(s[k])
    decreases |s|
  {
    if s != [] && IsSpace(s[|s| - 1]) then 1 + TrailingSpaces(s[..|s| - 1]) else 0
  }

  /** `s.lstrip()`: the longest suffix of `s` that does not start with whitespace. */
  function TrimStart(s: string): (r: string)
    ensures |r| <= |s| && r == s[|s| - |r|..]
    ensures forall k :: 0 <= k < |s| - |r| ==> IsSpace(s[k])
    ensures r == [] || !IsSpace(r[0])
  {
    s[LeadingSpaces(s)..]
  }

  /** `s.rstrip()`: the longest prefix of `s` that does not end with whitespace. */
  function TrimEnd(s: string): (r: string)
    ensures |r| <= |s| && r == s[..|r|]
    ensures forall k :: |r| <= k < |s| ==> IsSpace(s[k])
    ensures r == [] || !IsSpace(r[|r| - 1])
  {
    s[..|s| - TrailingSpaces(s)]
  }

  /** `s.strip()`. */
  function Strip(s: string): (r: string)
    ensures r == [] || (!IsSpace(r[0]) && !IsSpace(r[|r| - 1]))
  {
    TrimEnd(TrimStart(s))
  }

  /** Strip only removes characters: everything it keeps was in `s`. */
  lemma StripMembers(s: string)
    ensures forall x :: x in Strip(s) ==> x in s
  {
    var t := TrimStart(s);
    var r := TrimEnd(t);
    forall x | x in r ensures x in s {
      assert x in t[..|r|];
      assert x in s[|s| - |t|..];
    }
  }

  /** Strip takes the infix of `s` between its leading and trailing whitespace runs,
      and leaves a string with no whitespace at either end unchanged. */
  lemma StripIsInfix(s: string)
    ensures var i, r := |s| - |TrimStart(s)|, Strip(s);
      && i + |r| <= |s| && s[i..i + |r|] == r
      && (forall k :: 0 <= k < i ==> IsSpace(s[k]))
      && (forall k :: i + |r| <= k < |s| ==> IsSpace(s[k]))
  {
    var t, r := TrimStart(s), Strip(s);
    var i := |s| - |t|;
    assert i + |r| <= |s| && s[i..i + |r|] == r by {
      PrefixOfSuffix(s, t, TrimEnd(t));
    }
    assert forall k :: i + |r| <= k < |s| ==> IsSpace(s[k]) by {
      SpacesOfSuffix(s, t, |TrimEnd(t)|);
    }
  }

  /** A prefix `r` of a suffix `t` of `s` is the slice of `s` where `t` starts. */
  lemma PrefixOfSuffix(s: string, t: string, r: string)
    requires |t| <= |s| && t == s[|s| - |t|..]
    requires |r| <= |t| && r == t[..|r|]
    ensures s[|s| - |t|..|s| - |t| + |r|] == r
  {
  }

  /** Whitespace from position `n` of a suffix `t` of `s` on is whitespace of `s`
      from the matching position on. */
  lemma SpacesOfSuffix(s: string, t: string, n: int)
    requires |t| <= |s| && t == s[|s| - |t|..] && 0 <= n
    requires forall k :: n <= k < |t| ==> IsSpace(t[k])
    ensures forall k :: |s| - |t| + n <= k < |s| ==> IsSpace(s[k])
  {
    forall k | |s| - |t| + n <= k < |s| ensures IsSpace(s[k]) {
      assert s[k] == t[k - (|s| - |t|)];
    }
  }

  lemma StripUnpadded(s: string)
    requires s == [] || (!IsSpace(s[0]) && !IsSpace(s[|s| - 1]))
    ensures Strip(s) == s
  {
    assert TrimStart(s) == s;
  }

  /** The leading whitespace run is the one that ends at the first non-space. */
  lemma LeadingSpacesAt(s: string, n: nat)
    requires n <= |s| && (n == |s| || !IsSpace(s[n]))
    requires forall k :: 0 <= k < n ==> IsSpace(s[k])
    ensures LeadingSpaces(s) == n
  {
  }

  /** The trailing whitespace run is the one that starts after the last non-space. */
  lemma TrailingSpacesAt(s: string, n: nat)
    requires n <= |s| && (n == |s| || !IsSpace(s[|s| - n - 1]))
    requires forall k :: |s| - n <= k < |s| ==> IsSpace(s[k])
    ensures TrailingSpaces(s) == n
  {
  }

  /** Padding a text that has no whitespace at either end with whitespace on
      both sides, and stripping, gives the text back. */
  lemma StripPadded(a: string, m: string, b: string)
    requires forall k :: 0 <= k < |a| ==> IsSpace(a[k])
    requires forall k :: 0 <= k < |b| ==> IsSpace(b[k])
    requires m != [] && !IsSpace(m[0]) && !IsSpace(m[|m| - 1])
    ensures Strip(a + m + b) == m
  {
    assert a + m + b == a + (m + b);
    TrimStartPadded(a, m + b);
    TrimEndPadded(m, b);
  }

  /** `lstrip()` removes exactly a leading whitespace run. */
  lemma TrimStartPadded(a: string, t: string)
    requires forall k :: 0 <= k < |a| ==> IsSpace(a[k])
    requires t == [] || !IsSpace(t[0])
    ensures TrimStart(a + t) == t
  {
    var s := a + t;
    assert forall k :: 0 <= k < |a| ==> s[k] == a[k];
    assert |a| < |s| ==> s[|a|] == t[0];
    LeadingSpacesAt(s, |a|);
    assert s[|a|..] == t;
  }

  /** `rstrip()` removes exactly a trailing whitespace run. */
  lemma TrimEndPadded(m: string, b: string)
    requires forall k :: 0 <= k < |b| ==> IsSpace(b[k])
    requires m == [] || !IsSpace(m[|m| - 1])
    ensures TrimEnd(m + b) == m
  {
    var t := m + b;
    assert forall k :: |m| <= k < |t| ==> t[k] == b[k - |m|];
    assert |m| > 0 ==> t[|m| - 1] == m[|m| - 1];
    TrailingSpacesAt(t, |b|);
    assert t[..|m|] == m;
  }

  /** `s.replace(c, '')` for a one-character `c`: every occurrence is removed. */
  function RemoveChar(s: string, c: char): (r: string)
    ensures c !in r
    ensures |r| <= |s|
    ensures forall x :: x != c ==> (x in r <==> x in s)
    decreases |s|
  {
    if s == [] then []
    else if s[0] == c then RemoveChar(s[1..], c)
    else [s[0]] + RemoveChar(s[1..], c)
  }

  /** Removing a character works piecewise, keeps every other character in order,
      and is the identity on strings without it. */
  lemma {:induction false} RemoveCharAppend(a: string, b: string, c: char)
    ensures RemoveChar(a + b, c) == RemoveChar(a, c) + RemoveChar(b, c)
    decreases |a|
  {
    if a == [] {
      assert a + b == b;
    } else {
      assert (a + b)[1..] == a[1..] + b;
      RemoveCharAppend(a[1..], b, c);
    }
  }

  lemma {:induction false} RemoveCharAbsent(s: string, c: char)
    requires c !in s
    ensures RemoveChar(s, c) == s
    decreases |s|
  {
    if s != [] {
      RemoveCharAbsent(s[1..], c);
    }
  }

  /** `sep` occurs in `s` starting at index `i`. */
  predicate OccursAt(s: string, sep: string, i: int) {
    0 <= i && i + |sep| <= |s| && s[i..i + |sep|] == sep
  }

  ghost predicate Occurs(s: string, sep: string) {
    exists i :: OccursAt(s, sep, i)
  }

  /** `s.find(sep)`, with `None` for Python's -1. */
  function IndexOf(s: string, sep: string): (r: Option<nat>)
    ensures r.Some? ==> OccursAt(s, sep, r.value)
    ensures r.Some? ==> forall j :: 0 <= j < r.value ==> !OccursAt(s, sep, j)
    ensures r.None? ==> !Occurs(s, sep)
    decreases |s|
  {
    if |s| < |sep| then None
    else if s[..|sep|] == sep then Some(0)
    else match IndexOf(s[1..], sep)
      case None =>
        assert forall j :: OccursAt(s, sep, j) ==> j == 0 || OccursAt(s[1..], sep, j - 1);
        None
      case Some(i) =>
        assert forall j :: 0 < j <= i ==> (OccursAt(s, sep, j) <==> OccursAt(s[1..], sep, j - 1));
        Some(i + 1)
  }

  /** Python's `sep in s`. */
  predicate Contains(s: string, sep: string)
  {
    IndexOf(s, sep).Some?
  }

  lemma ContainsIff(s: string, sep: string)
    ensures Contains(s, sep) <==> Occurs(s, sep)
  {
  }

  /** `s.split(sep)` for a non-empty separator: cut at the leftmost occurrence,
      then split the remainder. */
  function Split(s: string, sep: string): (r: seq<string>)
    requires |sep| > 0
    ensures |r| >= 1
    ensures forall k :: 0 <= k < |r| ==> !Occurs(r[k], sep)
    ensures |r| > 1 <==> Occurs(s, sep)
    decreases |s|
  {
    match IndexOf(s, sep)
    case None => [s]
    case Some(i) =>
      var head := s[..i];
      assert !Occurs(head, sep) by {
        forall j | OccursAt(head, sep, j) ensures false {
          assert OccursAt(s, sep, j);
        }
      }
      [head] + Split(s[i + |sep|..], sep)
  }

  /** `s.split(sep)[-1]`. */
  function LastPiece(s: string, sep: string): string
    requires |sep| > 0
  {
    var pieces := Split(s, sep);
    pieces[|pieces| - 1]
  }

  /** Splitting then joining with the same separator gives the string back. */
  lemma {:induction false} JoinSplit(s: string, sep: string)
    requires |sep| > 0
    ensures Join(Split(s, sep), sep) == s
    decreases |s|
  {
    match IndexOf(s, sep)
    case None =>
      SplitNone(s, sep);
    case Some(i) =>
      SplitStep(s, sep, i);
      CutAt(s, sep, i);
      var tail := s[i + |sep|..];
      JoinSplit(tail, sep);
      JoinCons(s[..i], Split(tail, sep), sep);
  }

  /** Without an occurrence, `split` gives the text alone. */
  lemma SplitNone(s: string, sep: string)
    requires |sep| > 0 && IndexOf(s, sep).None?
    ensures Split(s, sep) == [s]
  {
  }

  /** One step of `split`: the text before the first occurrence, then the
      pieces of what follows it. */
  lemma SplitStep(s: string, sep: string, i: nat)
    requires |sep| > 0 && IndexOf(s, sep) == Some(i)
    ensures i + |sep| <= |s|
    ensures Split(s, sep) == [s[..i]] + Split(s[i + |sep|..], sep)
  {
    CutAt(s, sep, i);
  }

  /** Text with `sep` at `i` is what precedes it, `sep`, and what follows. */
  lemma CutAt(s: string, sep: string, i: int)
    requires OccursAt(s, sep, i)
    ensures s == s[..i] + sep + s[i + |sep|..]
  {
    assert s == s[..i] + s[i..i + |sep|] + s[i + |sep|..];
  }

  /** The last piece of a split is the text after the last separator the scan
      found: a suffix of `s` free of `sep`, which is either all of `s` (no
      separator at all) or preceded by a separator. */
  lemma LastPieceShape(s: string, sep: string)
    requires |sep| > 0
    ensures var r := LastPiece(s, sep);
      && |r| <= |s| && s[|s| - |r|..] == r && !Occurs(r, sep)
      && (if Occurs(s, sep)
          then |r| + |sep| <= |s| && s[|s| - |r| - |sep|..|s| - |r|] == sep
          else r == s)
  {
    LastPieceSuffix(s, sep);
    if IndexOf(s, sep).Some? {
      LastPieceAfterSep(s, sep);
    } else {
      SplitNone(s, sep);
    }
  }

  /** Past the first separator, the last piece is that of the remainder. */
  lemma LastPieceOfTail(s: string, sep: string, i: nat)
    requires |sep| > 0 && IndexOf(s, sep) == Some(i)
    ensures i + |sep| <= |s|
    ensures LastPiece(s, sep) == LastPiece(s[i + |sep|..], sep)
  {
    assert OccursAt(s, sep, i);
    var pieces, rest := Split(s, sep), Split(s[i + |sep|..], sep);
    assert pieces == [s[..i]] + rest by {
      SplitStep(s, sep, i);
    }
    assert pieces[|pieces| - 1] == rest[|rest| - 1];
  }

  /** The last piece is a suffix. */
  lemma {:induction false} LastPieceSuffix(s: string, sep: string)
    requires |sep| > 0
    ensures |LastPiece(s, sep)| <= |s| && s[|s| - |LastPiece(s, sep)|..] == LastPiece(s, sep)
    decreases |s|
  {
    match IndexOf(s, sep)
    case None =>
      SplitNone(s, sep);
    case Some(i) =>
      LastPieceOfTail(s, sep, i);
      var tail := s[i + |sep|..];
      LastPieceSuffix(tail, sep);
      var r := LastPiece(tail, sep);
      assert s[|s| - |r|..] == tail[|tail| - |r|..];
  }

  /** When `sep` occurs, the last piece directly follows an occurrence of it:
      the pieces join back to `s`, and the join ends in `sep` and the last piece. */
  lemma LastPieceAfterSep(s: string, sep: string)
    requires |sep| > 0 && IndexOf(s, sep).Some?
    ensures var r := LastPiece(s, sep);
      |r| + |sep| <= |s| && s[|s| - |r| - |sep|..|s| - |r|] == sep
  {
    var pieces := Split(s, sep);
    assert |pieces| > 1 by {
      assert OccursAt(s, sep, IndexOf(s, sep).value);
    }
    var r, x := pieces[|pieces| - 1], Join(pieces[..|pieces| - 1], sep);
    assert s == x + sep + r by {
      JoinSplit(s, sep);
      JoinLast(pieces, sep);
    }
    SepBeforeLast(x, sep, r);
  }

  /** In `x + sep + r`, `sep` sits right before the suffix `r`. */
  lemma SepBeforeLast(x: string, sep: string, r: string)
    ensures var s := x + sep + r;
      |r| + |sep| <= |s| && s[|s| - |r| - |sep|..|s| - |r|] == sep
  {
    var s := x + sep + r;
    assert s[|x|..|x| + |sep|] == sep;
  }

  /** A one-character separator occurs exactly where that character does. */
  lemma OccursAtChar(s: string, c: char, i: int)
    ensures OccursAt(s, [c], i) <==> 0 <= i < |s| && s[i] == c
  {
    if 0 <= i < |s| {
      assert s[i..i + 1] == [s[i]];
    }
  }

  /** Splitting a join on a one-character separator that no piece contains gives
      the pieces back. */
  lemma {:induction false} SplitJoin(xs: seq<string>, c: char)
    requires |xs| > 0
    requires forall k :: 0 <= k < |xs| ==> c !in xs[k]
    ensures Split(Join(xs, [c]), [c]) == xs
    decreases |xs|
  {
    var s := Join(xs, [c]);
    if |xs| == 1 {
      assert s == xs[0];
      forall j ensures !OccursAt(s, [c], j) {
        OccursAtChar(s, c, j);
      }
    } else {
      var rest := Join(xs[1..], [c]);
      assert s == xs[0] + [c] + rest;
      var n := |xs[0]|;
      OccursAtChar(s, c, n);
      forall j | 0 <= j < n ensures !OccursAt(s, [c], j) {
        OccursAtChar(s, c, j);
        assert s[j] == xs[0][j];
      }
      assert IndexOf(s, [c]) == Some(n);
      assert s[..n] == xs[0];
      assert s[n + 1..] == rest;
      SplitJoin(xs[1..], c);
    }
  }
}
