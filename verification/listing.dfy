/** `get_posts`: the post listing page turned into post summaries and a cursor
    for the next page. */
module Listing {
  import opened Wrappers
  import opened Seqs
  import opened PyStr
  import opened TimeFormat
  import opened Dom
  import opened Urls

  /** Reply count and latest reply of a post, present only together. */
  datatype Replies = Replies(count: string, lastAuthor: string, lastTime: Stamp)

  datatype PostSummary = PostSummary(
    title: string,
    url: string,
    postId: string,
    author: Option<string>,
    createTime: Stamp,
    replies: Option<Replies>)

  datatype ListingReply =
    | Listing(total: nat, posts: seq<PostSummary>, nextTimestamp: Option<string>)
    | ListingError(status: int, error: string)

  const PostList: Query := Classed("div", ["post-list"])
  const PostItem: Query := Classed("a", ["post-item"])
  const PostInfo: Query := Classed("div", ["post-info"])
  const PostMeta: Query := Classed("div", ["post-meta"])
  const AuthorSpan: Query := Classed("span", ["author"])
  const DateSpan: Query := Classed("span", ["date"])
  const RepliesSpan: Query := Classed("span", ["replies"])

  /** An item the loop keeps: it has both a `post-info` and a `post-meta` block. */
  predicate WellFormed(item: Hit) {
    Find(item, PostInfo).Some? && Find(item, PostMeta).Some?
  }

  /** `.get_text(strip=True).replace('❮', '').strip()` of the replies span. */
  function ReplyCount(span: Node): (r: string)
    ensures '❮' !in r
    ensures r == [] || (!IsSpace(r[0]) && !IsSpace(r[|r| - 1]))
  {
    var bare := RemoveChar(GetText(span), '❮');
    StripMembers(bare);
    Strip(bare)
  }

  /** One iteration of the loop over `post-item` links. */
  function Summarize(item: Hit, clock: Clock): (r: Option<PostSummary>)
    ensures r.Some? <==> WellFormed(item)
    ensures r.Some? ==>
      var href := Attr(item.node, "href").GetOr("");
      && r.value.url == BaseUrl + href
      && r.value.postId == LastSegment(href)
      && r.value.title == GetText(Find(item, PostInfo).value.node)
    ensures r.Some? ==>
      var meta := Find(item, PostMeta).value;
      var authors, dates := FindAll(meta, AuthorSpan), FindAll(meta, DateSpan);
      var span := Find(meta, RepliesSpan);
      && r.value.author == (if |authors| > 0 then Some(GetText(authors[0].node)) else None)
      && r.value.createTime == StampOf(if |dates| > 0 then Attr(dates[0].node, "time_stamp") else None, clock)
      && (r.value.replies.Some? <==> |authors| > 1 && |dates| > 1 && span.Some?)
      && (r.value.replies.Some? ==>
            r.value.replies.value == Replies(
              ReplyCount(span.value.node),
              GetText(authors[|authors| - 1].node),
              StampOf(Attr(dates[|dates| - 1].node, "time_stamp"), clock)))
  {
    match (Find(item, PostInfo), Find(item, PostMeta))
    case (Some(info), Some(meta)) =>
      var href := Attr(item.node, "href").GetOr("");
      var authors := FindAll(meta, AuthorSpan);
      var dates := FindAll(meta, DateSpan);
      var repliesSpan := Find(meta, RepliesSpan);
      var created := if |dates| > 0 then Attr(dates[0].node, "time_stamp") else None;
      var replies :=
        if |authors| > 1 && |dates| > 1 && repliesSpan.Some? then
          Some(Replies(
            ReplyCount(repliesSpan.value.node),
            GetText(authors[|authors| - 1].node),
            StampOf(Attr(dates[|dates| - 1].node, "time_stamp"), clock)))
        else None;
      Some(PostSummary(
        GetText(info.node),
        BaseUrl + href,
        LastSegment(href),
        if |authors| > 0 then Some(GetText(authors[0].node)) else None,
        StampOf(created, clock),
        replies))
    case _ => None
  }

  /** The summaries of the well-formed items, in document order. */
  function Summaries(items: seq<Hit>, clock: Clock): (r: seq<PostSummary>)
    ensures |r| <= |items|
  {
    FilterMap(items, (item: Hit) => Summarize(item, clock))
  }

  /** The cursor for the next page: the latest activity of the last post, its
      last reply when it has one, else its creation. */
  function NextCursor(posts: seq<PostSummary>): (r: Option<string>)
    ensures posts == [] ==> r.None?
    ensures posts != [] && posts[|posts| - 1].replies.Some? ==>
      r == posts[|posts| - 1].replies.value.lastTime.timestamp
    ensures posts != [] && posts[|posts| - 1].replies.None? ==>
      r == posts[|posts| - 1].createTime.timestamp
  {
    if posts == [] then None
    else
      var last := posts[|posts| - 1];
      match last.replies
      case Some(replies) => replies.lastTime.timestamp
      case None => last.createTime.timestamp
  }

  /** `get_posts()` for the page `fetch` returns from the listing address:
      a failed fetch or a page without the list container is a 500; otherwise
      the summaries, their number, and the next cursor. */
  function GetPosts(timestamp: Option<string>, fetch: string -> Option<Node>, clock: Clock): (r: ListingReply)
    ensures fetch(ListingUrl(timestamp)).None? ==> r == ListingError(500, "获取数据失败")
    ensures fetch(ListingUrl(timestamp)).Some? && Find(Root(fetch(ListingUrl(timestamp)).value), PostList).None? ==>
      r == ListingError(500, "未找到帖子列表")
    ensures r.Listing? ==> r.total == |r.posts| && r.nextTimestamp == NextCursor(r.posts)
    ensures fetch(ListingUrl(timestamp)).Some? && Find(Root(fetch(ListingUrl(timestamp)).value), PostList).Some? ==>
      var list := Find(Root(fetch(ListingUrl(timestamp)).value), PostList).value;
      r.Listing? && r.posts == Summaries(FindAll(list, PostItem), clock)
  {
    match fetch(ListingUrl(timestamp))
    case None => ListingError(500, "获取数据失败")
    case Some(page) =>
      match Find(Root(page), PostList)
      case None => ListingError(500, "未找到帖子列表")
      case Some(list) =>
        var posts := Summaries(FindAll(list, PostItem), clock);
        Listing(|posts|, posts, NextCursor(posts))
  }

  /** The reply count is the span's text with its '❮' markers and the
      whitespace around the number taken away: a text made of markers and
      whitespace, the number, then markers and whitespace gives the number. */
  lemma ReplyCountOfText(span: Node, p: string, n: string, q: string)
    requires GetText(span) == p + n + q
    requires forall k :: 0 <= k < |p| ==> p[k] == '❮' || IsSpace(p[k])
    requires forall k :: 0 <= k < |q| ==> q[k] == '❮' || IsSpace(q[k])
    requires n != [] && !IsSpace(n[0]) && !IsSpace(n[|n| - 1]) && '❮' !in n
    ensures ReplyCount(span) == n
  {
    RemoveCharAppend(p + n, q, '❮');
    RemoveCharAppend(p, n, '❮');
    RemoveCharAbsent(n, '❮');
    MarkersGone(p);
    MarkersGone(q);
    StripPadded(RemoveChar(p, '❮'), n, RemoveChar(q, '❮'));
  }

  /** Markers and whitespace with the markers removed are only whitespace. */
  lemma MarkersGone(s: string)
    requires forall k :: 0 <= k < |s| ==> s[k] == '❮' || IsSpace(s[k])
    ensures var r := RemoveChar(s, '❮');
      forall k :: 0 <= k < |r| ==> IsSpace(r[k])
  {
    var r := RemoveChar(s, '❮');
    forall k | 0 <= k < |r| ensures IsSpace(r[k]) {
      assert r[k] in r;
      var j :| 0 <= j < |s| && s[j] == r[k];
    }
  }

  /** The listing has one summary per well-formed item, however many malformed
      items are interspersed. */
  lemma SummaryCount(items: seq<Hit>, clock: Clock)
    ensures |Summaries(items, clock)| == Count(items, WellFormed)
  {
    FilterMapCount(items, (item: Hit) => Summarize(item, clock), WellFormed);
  }

  /** Relative order is kept: the summaries of two runs of items are the
      summaries of the first run followed by those of the second, and a
      malformed item contributes nothing. */
  lemma SummaryOrder(a: seq<Hit>, b: seq<Hit>, clock: Clock)
    ensures Summaries(a + b, clock) == Summaries(a, clock) + Summaries(b, clock)
    ensures forall item :: !WellFormed(item) ==> Summaries([item], clock) == []
  {
    FilterMapAppend(a, b, (item: Hit) => Summarize(item, clock));
  }

  /** A well-formed first item gives the first summary. */
  lemma FirstSummary(items: seq<Hit>, clock: Clock)
    requires items != [] && WellFormed(items[0])
    ensures Summaries(items, clock) != [] && Summaries(items, clock)[0] == Summarize(items[0], clock).value
  {
  }

  /** Every summary's `post_id` is the last '/'-segment of the `href` its `url`
      was built from, and so never contains a '/'. */
  lemma PostIdsAreLastSegments(items: seq<Hit>, clock: Clock)
    ensures forall p :: p in Summaries(items, clock) ==>
      && |BaseUrl| <= |p.url| && p.url[..|BaseUrl|] == BaseUrl
      && p.postId == LastSegment(p.url[|BaseUrl|..])
      && '/' !in p.postId
  {
    var f := (item: Hit) => Summarize(item, clock);
    FilterMapMembers(items, f);
    forall p | p in Summaries(items, clock)
      ensures |BaseUrl| <= |p.url| && p.url[..|BaseUrl|] == BaseUrl
      ensures p.postId == LastSegment(p.url[|BaseUrl|..])
    {
      var i :| 0 <= i < |items| && f(items[i]) == Some(p);
      var href := Attr(items[i].node, "href").GetOr("");
      assert p.url == BaseUrl + href;
      assert p.url[|BaseUrl|..] == href;
    }
  }

  /** The route's listing: one post per well-formed `post-item` of the page's
      list, each `post_id` a '/'-free last segment of its link, and the first
      well-formed item, if any, first. */
  lemma ListingOfPage(timestamp: Option<string>, fetch: string -> Option<Node>, clock: Clock)
    requires GetPosts(timestamp, fetch, clock).Listing?
    ensures var r := GetPosts(timestamp, fetch, clock);
      var items := FindAll(Find(Root(fetch(ListingUrl(timestamp)).value), PostList).value, PostItem);
      && r.total == Count(items, WellFormed)
      && (forall p :: p in r.posts ==> '/' !in p.postId)
      && (items != [] && WellFormed(items[0]) ==> r.posts[0] == Summarize(items[0], clock).value)
  {
    var items := FindAll(Find(Root(fetch(ListingUrl(timestamp)).value), PostList).value, PostItem);
    var posts := GetPosts(timestamp, fetch, clock).posts;
    assert posts == Summaries(items, clock);
    assert |posts| == Count(items, WellFormed) by {
      SummaryCount(items, clock);
    }
    assert forall p :: p in posts ==> '/' !in p.postId by {
      PostIdsAreLastSegments(items, clock);
    }
    if items != [] && WellFormed(items[0]) {
      FirstSummary(items, clock);
    }
  }
}
