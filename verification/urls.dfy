/** The upstream addresses the routes fetch, and the path-segment cursors read
    back out of links. */
module Urls {
  import opened Wrappers
  import opened PyStr

  const BaseUrl: string := "https://assbbs.com"

  /** `if timestamp:` — a query parameter counts only when present and non-empty. */
  predicate Given(ts: Option<string>) {
    ts.Some? && ts.value != ""
  }

  /** The listing page: `/l/<timestamp>` for a later page, `/` for the first. */
  function ListingUrl(ts: Option<string>): (r: string)
    ensures BaseUrl + "/" <= r
    ensures Given(ts) <==> |r| > |BaseUrl| + 1
  {
    if Given(ts) then BaseUrl + "/l/" + ts.value else BaseUrl + "/"
  }

  /** The thread page: `/t/<post_id>/m/<timestamp>` for a later page,
      `/t/<post_id>` for the first. */
  function DetailUrl(postId: string, ts: Option<string>): (r: string)
    ensures BaseUrl + "/t/" + postId <= r
    ensures Given(ts) <==> |r| > |BaseUrl| + 3 + |postId|
  {
    if Given(ts) then BaseUrl + "/t/" + postId + "/m/" + ts.value else BaseUrl + "/t/" + postId
  }

  /** `s.split('/')[-1]`: the text after the last '/', or all of `s` without one. */
  function LastSegment(s: string): (r: string)
    ensures |r| <= |s| && r == s[|s| - |r|..]
    ensures '/' !in r
    ensures r == s || s[|s| - |r| - 1] == '/'
    ensures '/' !in s ==> r == s
  {
    SlashPieceShape(s);
    LastPiece(s, "/")
  }

  lemma SlashPieceShape(s: string)
    ensures var r := LastPiece(s, "/");
      && |r| <= |s| && r == s[|s| - |r|..] && '/' !in r
      && (r == s || s[|s| - |r| - 1] == '/')
      && ('/' !in s ==> r == s)
  {
    LastPieceShape(s, "/");
    var r := LastPiece(s, "/");
    forall k | 0 <= k < |r| ensures r[k] != '/' {
      OccursAtChar(r, '/', k);
    }
    if '/' !in s {
      forall k ensures !OccursAt(s, "/", k) {
        OccursAtChar(s, '/', k);
      }
    } else if r != s {
      assert s[|s| - |r| - 1..|s| - |r|] == "/";
    }
  }

  /** The last segment of a path ending in `/t` is `t`, for any `t` without '/'. */
  lemma LastSegmentAfterSlash(p: string, t: string)
    requires '/' !in t
    ensures LastSegment(p + "/" + t) == t
  {
    var s := p + "/" + t;
    var r := LastSegment(s);
    assert s[|p|] == '/';
    assert s[|s| - |t|..] == t;
  }

  /** A listing cursor survives the trip through the page address: the
      address is `/l/<t>`, and its last segment is the cursor again. */
  lemma ListingCursorRoundTrip(t: string)
    requires t != "" && '/' !in t
    ensures ListingUrl(Some(t)) == BaseUrl + "/l/" + t
    ensures LastSegment(ListingUrl(Some(t))) == t
  {
    assert ListingUrl(Some(t)) == (BaseUrl + "/l") + "/" + t;
    LastSegmentAfterSlash(BaseUrl + "/l", t);
  }

  /** An empty `timestamp` parameter is the same as none: the first page. */
  lemma EmptyCursorIsFirstPage(postId: string)
    ensures ListingUrl(Some("")) == ListingUrl(None) == BaseUrl + "/"
    ensures DetailUrl(postId, Some("")) == DetailUrl(postId, None) == BaseUrl + "/t/" + postId
  {
  }

  /** Following a thread pager link: when the link is `/t/<id>/m/<t>`, the cursor
      read from it rebuilds exactly the address the link points to. */
  lemma PagerRoundTrip(postId: string, t: string)
    requires t != "" && '/' !in t
    ensures var href := "/t/" + postId + "/m/" + t;
      DetailUrl(postId, Some(LastSegment(href))) == BaseUrl + href
  {
    var head := "/t/" + postId + "/m";
    var href := "/t/" + postId + "/m/" + t;
    assert href == head + "/" + t;
    LastSegmentAfterSlash(head, t);
    assert LastSegment(href) == t;
    assert Given(Some(t));
  }
}
