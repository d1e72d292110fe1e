/** Order-preserving sequence combinators shared by the extractors. */
module Seqs {
  import opened Wrappers

  /** Elements of `s` that satisfy `p`, in their original order. */
  function Filter<T>(s: seq<T>, p: T -> bool): (r: seq<T>)
    ensures |r| <= |s|
    ensures forall k :: 0 <= k < |r| ==> p(r[k])
    ensures forall k :: 0 <= k < |r| ==> r[k] in s
    ensures forall k :: 0 <= k < |s| && p(s[k]) ==> s[k] in r
    decreases |s|
  {
    if s == [] then []
    else if p(s[0]) then [s[0]] + Filter(s[1..], p)
    else Filter(s[1..], p)
  }

  /** The `Some` results of `f` over `s`, in order: the shape of a Python loop that
      `continue`s past the elements it cannot use and `append`s the rest. */
  function FilterMap<T, U>(s: seq<T>, f: T -> Option<U>): (r: seq<U>)
    ensures |r| <= |s|
    decreases |s|
  {
    if s == [] then []
    else match f(s[0])
      case Some(u) => [u] + FilterMap(s[1..], f)
      case None => FilterMap(s[1..], f)
  }

  /** Number of elements of `s` satisfying `p`. */
  function Count<T>(s: seq<T>, p: T -> bool): nat
    decreases |s|
  {
    if s == [] then 0 else (if p(s[0]) then 1 else 0) + Count(s[1..], p)
  }

  /** Python's `sep.join(xs)`: the elements' characters plus one separator
      between each pair of neighbours, nothing more. */
  function Join(xs: seq<string>, sep: string): (r: string)
    ensures |r| == JoinedLength(xs, sep)
    decreases |xs|
  {
    if xs == [] then ""
    else if |xs| == 1 then xs[0]
    else xs[0] + sep + Join(xs[1..], sep)
  }

  /** Length of `sep.join(xs)`, counted independently of the text: the elements'
      lengths plus one separator between each pair of neighbours. */
  function JoinedLength(xs: seq<string>, sep: string): nat
    decreases |xs|
  {
    if xs == [] then 0
    else if |xs| == 1 then |xs[0]|
    else |xs[0]| + |sep| + JoinedLength(xs[1..], sep)
  }

  /** Joining one more element in front adds it and one separator. */
  lemma JoinCons(x: string, xs: seq<string>, sep: string)
    requires xs != []
    ensures Join([x] + xs, sep) == x + sep + Join(xs, sep)
  {
    assert ([x] + xs)[1..] == xs;
  }

  /** The last element of a join of two or more is preceded by one separator. */
  lemma {:induction false} JoinLast(xs: seq<string>, sep: string)
    requires |xs| > 1
    ensures Join(xs, sep) == Join(xs[..|xs| - 1], sep) + sep + xs[|xs| - 1]
    decreases |xs|
  {
    if |xs| > 2 {
      JoinLast(xs[1..], sep);
      assert xs[1..][..|xs| - 2] == xs[..|xs| - 1][1..];
      assert Join(xs[..|xs| - 1], sep) == xs[0] + sep + Join(xs[..|xs| - 1][1..], sep);
    } else {
      assert xs[..1] == [xs[0]];
    }
  }

  /** The first element opens `sep.join(xs)` and the last one closes it. */
  lemma {:induction false} JoinEnds(xs: seq<string>, sep: string)
    requires |xs| > 0
    ensures xs[0] <= Join(xs, sep)
    ensures var r, last := Join(xs, sep), xs[|xs| - 1];
      |last| <= |r| && r[|r| - |last|..] == last
    decreases |xs|
  {
    if |xs| > 1 {
      JoinEnds(xs[1..], sep);
      var rest := Join(xs[1..], sep);
      var r := Join(xs, sep);
      assert r == xs[0] + sep + rest;
      assert r[|r| - |rest|..] == rest;
    }
  }

  /** Filter distributes over concatenation: the kept elements of a prefix come
      before those of the rest, so relative order is kept. */
  lemma {:induction false} FilterAppend<T>(a: seq<T>, b: seq<T>, p: T -> bool)
    ensures Filter(a + b, p) == Filter(a, p) + Filter(b, p)
    decreases |a|
  {
    if a == [] {
      assert a + b == b;
    } else {
      assert (a + b)[0] == a[0];
      assert (a + b)[1..] == a[1..] + b;
      FilterAppend(a[1..], b, p);
    }
  }

  /** FilterMap distributes over concatenation: the results of a prefix come
      before the results of the rest, so relative order is kept. */
  lemma {:induction false} FilterMapAppend<T, U>(a: seq<T>, b: seq<T>, f: T -> Option<U>)
    ensures FilterMap(a + b, f) == FilterMap(a, f) + FilterMap(b, f)
    decreases |a|
  {
    if a == [] {
      assert a + b == b;
    } else {
      assert (a + b)[0] == a[0];
      assert (a + b)[1..] == a[1..] + b;
      FilterMapAppend(a[1..], b, f);
    }
  }

  /** Exactly the elements `f` accepts produce an output, so the length is the
      count of any predicate that agrees with acceptance. */
  lemma {:induction false} FilterMapCount<T, U>(s: seq<T>, f: T -> Option<U>, p: T -> bool)
    requires forall x :: f(x).Some? == p(x)
    ensures |FilterMap(s, f)| == Count(s, p)
    decreases |s|
  {
    if s != [] {
      FilterMapCount(s[1..], f, p);
    }
  }

  /** An output of FilterMap is the image of some input, and every accepted input
      contributes its image. */
  lemma {:induction false} FilterMapMembers<T, U>(s: seq<T>, f: T -> Option<U>)
    ensures forall u :: u in FilterMap(s, f) <==> exists i :: 0 <= i < |s| && f(s[i]) == Some(u)
    decreases |s|
  {
    if s != [] {
      FilterMapMembers(s[1..], f);
      forall u
        ensures u in FilterMap(s, f) <==> exists i :: 0 <= i < |s| && f(s[i]) == Some(u)
      {
        if u in FilterMap(s, f) {
          if f(s[0]) == Some(u) {
          } else {
            assert u in FilterMap(s[1..], f);
            var i :| 0 <= i < |s[1..]| && f(s[1..][i]) == Some(u);
            assert f(s[i + 1]) == Some(u);
          }
        }
        if exists i :: 0 <= i < |s| && f(s[i]) == Some(u) {
          var i :| 0 <= i < |s| && f(s[i]) == Some(u);
          if i > 0 {
            assert f(s[1..][i - 1]) == Some(u);
          }
        }
      }
    }
  }
}
