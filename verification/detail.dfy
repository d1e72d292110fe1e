/** `get_post_detail`: a thread page turned into reply records and the cursors
    of the neighbouring pages. */
module Detail {
  import opened Wrappers
  import opened Seqs
  import opened PyStr
  import opened TimeFormat
  import opened Dom
  import opened Urls

  datatype Author = Author(name: string, uid: Option<string>)

  /** A reply or edit button: its first class and its resolved link. */
  datatype Action = Action(kind: string, url: string)

  datatype ReplyPost = ReplyPost(
    id: string,
    content: string,
    quote: Option<string>,
    author: Author,
    time: Stamp,
    actions: seq<Action>)

  datatype DetailReply =
    | Thread(id: string, posts: seq<ReplyPost>, nextTimestamp: Option<string>, prevTimestamp: Option<string>)
    | DetailError(status: int, error: string)

  const PostList: Query := Classed("div", ["post-list"])
  const PostItem: Query := Classed("div", ["post-item"])
  const PostInfo: Query := Classed("div", ["post-info"])
  const PostMeta: Query := Classed("div", ["post-meta"])
  const QuoteBlock: Query := Classed("blockquote", ["blockquote"])
  const Paragraph: Query := Tag("p")
  const AuthorLink: Query := Classed("a", ["author"])
  const DateSpan: Query := Classed("span", ["date"])
  const ActionLink: Query := Classed("a", ["reply", "edit"])
  const Pagination: Query := Classed("div", ["pagination"])
  const NextCaption: string := "下页"
  const PrevCaption: string := "上页"
  const UidMarker: string := "uid="
  const ScriptScheme: string := "javascript:"

  /** `post_item.get('id', '').replace('p', '')`: every 'p' is dropped, not only a
      leading one. */
  function ReplyId(item: Node): (r: string)
    ensures 'p' !in r
  {
    RemoveChar(Attr(item, "id").GetOr(""), 'p')
  }

  /** The text of one paragraph, or nothing for a paragraph that has a
      `<blockquote>` ancestor. */
  function OwnText(p: Hit): (r: Option<string>)
    ensures r.None? <==> p.quoted
    ensures r.Some? ==> r.value == GetText(p.node)
  {
    if p.quoted then None else Some(GetText(p.node))
  }

  /** The texts of the paragraphs below `info` that are not quoted, in order. */
  function OwnParagraphs(info: Hit): (r: seq<string>)
    ensures |r| <= |FindAll(info, Paragraph)|
  {
    FilterMap(FindAll(info, Paragraph), OwnText)
  }

  /** `'\n'.join(...)` of the unquoted paragraphs: empty when there are none,
      otherwise starting with the first and ending with the last. */
  function Content(info: Hit): (r: string)
    ensures OwnParagraphs(info) == [] ==> r == ""
    ensures var ps := OwnParagraphs(info);
      ps != [] ==> ps[0] <= r && |ps[|ps| - 1]| <= |r| && r[|r| - |ps[|ps| - 1]|..] == ps[|ps| - 1]
  {
    var ps := OwnParagraphs(info);
    if ps == [] then Join(ps, "\n")
    else JoinEnds(ps, "\n"); Join(ps, "\n")
  }

  /** The profile id: the text after the last `uid=` of the link, when it has one. */
  function Uid(href: string): (r: Option<string>)
    ensures r.Some? <==> Occurs(href, UidMarker)
    ensures r.Some? ==>
      && |r.value| + |UidMarker| <= |href|
      && href == href[..|href| - |r.value| - |UidMarker|] + UidMarker + r.value
      && !Occurs(r.value, UidMarker)
  {
    ContainsIff(href, UidMarker);
    if Contains(href, UidMarker) then
      LastPieceShape(href, UidMarker);
      var u := LastPiece(href, UidMarker);
      assert href == href[..|href| - |u| - |UidMarker|] + href[|href| - |u| - |UidMarker|..|href| - |u|] + href[|href| - |u|..];
      Some(u)
    else None
  }

  /** `f"{BASE_URL}{href}"` for a site-relative link, the link itself otherwise. */
  function Resolve(href: string): (r: string)
    ensures "/" <= href ==> r == BaseUrl + href
    ensures !("/" <= href) ==> r == href
  {
    if "/" <= href then BaseUrl + href else href
  }

  /** A button kept in the actions: its link is non-empty and not a script link. */
  predicate Usable(href: string) {
    href != "" && !(ScriptScheme <= href)
  }

  /** The action of one button: its first class as the kind, its resolved
      link as the url. */
  function ActionOf(link: Hit): (r: Option<Action>)
    ensures r.Some? <==> Usable(Attr(link.node, "href").GetOr(""))
    ensures r.Some? ==> r.value.kind == FirstClass(link.node)
    ensures r.Some? ==> r.value.url == Resolve(Attr(link.node, "href").GetOr(""))
  {
    var href := Attr(link.node, "href").GetOr("");
    if Usable(href) then Some(Action(FirstClass(link.node), Resolve(href))) else None
  }

  /** The actions of the usable `reply`/`edit` buttons, in document order. */
  function Actions(meta: Hit): (r: seq<Action>)
    ensures |r| <= |FindAll(meta, ActionLink)|
  {
    FilterMap(FindAll(meta, ActionLink), ActionOf)
  }

  /** A `post-item` block the loop turns into a reply: it has `post-info`,
      `post-meta`, and an author link inside the latter. */
  predicate Complete(item: Hit) {
    Find(item, PostInfo).Some? && Find(item, PostMeta).Some?
    && Find(Find(item, PostMeta).value, AuthorLink).Some?
  }

  /** The `time_stamp` attribute of the reply's date span, when there is one. */
  function DateOf(meta: Hit): (r: Option<string>)
    ensures Find(meta, DateSpan).None? ==> r.None?
    ensures Find(meta, DateSpan).Some? ==> r == Attr(Find(meta, DateSpan).value.node, "time_stamp")
  {
    if Find(meta, DateSpan).Some? then Attr(Find(meta, DateSpan).value.node, "time_stamp") else None
  }

  /** One iteration of the loop over `post-item` blocks. `None` when the block
      lacks `post-info` or `post-meta` (skipped) or has no author link (the
      `AttributeError` the loop catches and logs). */
  function ParseReply(item: Hit, clock: Clock): (r: Option<ReplyPost>)
    ensures r.Some? <==> Complete(item)
    ensures r.Some? ==>
      && r.value.id == ReplyId(item.node)
      && r.value.content == Content(Find(item, PostInfo).value)
      && r.value.actions == Actions(Find(item, PostMeta).value)
    ensures r.Some? ==>
      var info, meta := Find(item, PostInfo).value, Find(item, PostMeta).value;
      var link := Find(meta, AuthorLink).value;
      && (Find(info, QuoteBlock).None? ==> r.value.quote.None?)
      && (Find(info, QuoteBlock).Some? ==> r.value.quote == Some(GetText(Find(info, QuoteBlock).value.node)))
      && r.value.author.name == GetText(link.node)
      && r.value.author.uid == Uid(Attr(link.node, "href").GetOr(""))
      && r.value.time == StampOf(DateOf(meta), clock)
  {
    if Find(item, PostInfo).None? || Find(item, PostMeta).None? then None
    else
      var info := Find(item, PostInfo).value;
      var meta := Find(item, PostMeta).value;
      match Find(meta, AuthorLink)
      case None => None
      case Some(link) =>
        var quote := match Find(info, QuoteBlock)
          case Some(block) => Some(GetText(block.node))
          case None => None;
        var author := Author(GetText(link.node), Uid(Attr(link.node, "href").GetOr("")));
        Some(ReplyPost(ReplyId(item.node), Content(info), quote, author, StampOf(DateOf(meta), clock), Actions(meta)))
  }

  /** The replies of the complete items, in document order. */
  function Replies(items: seq<Hit>, clock: Clock): (r: seq<ReplyPost>)
    ensures |r| <= |items|
  {
    FilterMap(items, (item: Hit) => ParseReply(item, clock))
  }

  /** The cursor behind the pager link with the given caption:
      `link.get('href', '').split('/')[-1]`. */
  function PagerCursor(pager: Option<Hit>, caption: string): (r: Option<string>)
    ensures pager.None? ==> r.None?
    ensures pager.Some? ==> (r.Some? <==> Find(pager.value, Labelled("a", caption)).Some?)
    ensures pager.Some? && r.Some? ==>
      r.value == LastSegment(Attr(Find(pager.value, Labelled("a", caption)).value.node, "href").GetOr(""))
    ensures r.Some? ==> '/' !in r.value
  {
    if pager.None? then None
    else match Find(pager.value, Labelled("a", caption))
      case None => None
      case Some(link) => Some(LastSegment(Attr(link.node, "href").GetOr("")))
  }

  /** `get_post_detail(post_id)` for the page `fetch` returns from the thread
      address. */
  function GetPostDetail(postId: string, timestamp: Option<string>, fetch: string -> Option<Node>, clock: Clock): (r: DetailReply)
    ensures fetch(DetailUrl(postId, timestamp)).None? ==> r == DetailError(500, "获取数据失败")
    ensures fetch(DetailUrl(postId, timestamp)).Some? && Find(Root(fetch(DetailUrl(postId, timestamp)).value), PostList).None? ==>
      r == DetailError(500, "未找到帖子内容")
    ensures r.Thread? ==> r.id == postId
    ensures r.Thread? && r.nextTimestamp.Some? ==> '/' !in r.nextTimestamp.value
    ensures r.Thread? && r.prevTimestamp.Some? ==> '/' !in r.prevTimestamp.value
    ensures r.Thread? ==> |r.posts| <= |FindAll(Find(Root(fetch(DetailUrl(postId, timestamp)).value), PostList).value, PostItem)|
    ensures fetch(DetailUrl(postId, timestamp)).Some? && Find(Root(fetch(DetailUrl(postId, timestamp)).value), PostList).Some? ==>
      var page := fetch(DetailUrl(postId, timestamp)).value;
      var pager := Find(Root(page), Pagination);
      && r.Thread?
      && r.posts == Replies(FindAll(Find(Root(page), PostList).value, PostItem), clock)
      && r.nextTimestamp == PagerCursor(pager, NextCaption)
      && r.prevTimestamp == PagerCursor(pager, PrevCaption)
  {
    match fetch(DetailUrl(postId, timestamp))
    case None => DetailError(500, "获取数据失败")
    case Some(page) =>
      match Find(Root(page), PostList)
      case None => DetailError(500, "未找到帖子内容")
      case Some(list) =>
        var posts := Replies(FindAll(list, PostItem), clock);
        var pager := Find(Root(page), Pagination);
        Thread(postId, posts, PagerCursor(pager, NextCaption), PagerCursor(pager, PrevCaption))
  }

  /** Content is the unquoted paragraphs, one per line: when no paragraph text
      holds a newline, splitting the content on newlines gives them back. */
  lemma ContentLines(info: Hit)
    requires OwnParagraphs(info) != []
    requires forall k :: 0 <= k < |OwnParagraphs(info)| ==> '\n' !in OwnParagraphs(info)[k]
    ensures Split(Content(info), "\n") == OwnParagraphs(info)
  {
    SplitJoin(OwnParagraphs(info), '\n');
  }

  /** One line per paragraph that has no `<blockquote>` ancestor; paragraphs
      under a quote contribute nothing. */
  lemma ParagraphCount(info: Hit)
    ensures |OwnParagraphs(info)| == Count(FindAll(info, Paragraph), (p: Hit) => !p.quoted)
  {
    FilterMapCount(FindAll(info, Paragraph), OwnText, (p: Hit) => !p.quoted);
  }

  /** `find_parent` looks past the post: when the post body itself sits inside a
      `<blockquote>`, every paragraph counts as quoted and the content is empty. */
  lemma QuotedBodyHasNoContent(info: Hit)
    requires info.quoted || (info.node.Element? && info.node.tag == "blockquote")
    ensures Content(info) == ""
  {
    QuotedBelow(info);
    var paras := FindAll(info, Paragraph);
    NoneQuoted(paras);
  }

  lemma {:induction false} NoneQuoted(paras: seq<Hit>)
    requires forall k :: 0 <= k < |paras| ==> paras[k].quoted
    ensures FilterMap(paras, OwnText) == []
    decreases |paras|
  {
    if paras != [] {
      NoneQuoted(paras[1..]);
    }
  }

  /** Every kept action has a non-empty link that is not a script link, and
      site-relative links are made absolute; one action per usable button, in
      document order. */
  lemma ActionsResolved(meta: Hit)
    ensures forall a :: a in Actions(meta) ==>
      a.url != "" && !(ScriptScheme <= a.url)
      && (BaseUrl <= a.url || !("/" <= a.url))
    ensures |Actions(meta)| == Count(FindAll(meta, ActionLink), (l: Hit) => Usable(Attr(l.node, "href").GetOr("")))
    ensures forall a :: a in Actions(meta) ==>
      exists i :: 0 <= i < |FindAll(meta, ActionLink)|
        && Usable(Attr(FindAll(meta, ActionLink)[i].node, "href").GetOr(""))
        && a == Action(FirstClass(FindAll(meta, ActionLink)[i].node), Resolve(Attr(FindAll(meta, ActionLink)[i].node, "href").GetOr("")))
  {
    var links := FindAll(meta, ActionLink);
    FilterMapMembers(links, ActionOf);
    forall a | a in Actions(meta)
      ensures exists i ::
        0 <= i < |links| && Usable(Attr(links[i].node, "href").GetOr(""))
        && a == Action(FirstClass(links[i].node), Resolve(Attr(links[i].node, "href").GetOr("")))
    {
      var i :| 0 <= i < |links| && ActionOf(links[i]) == Some(a);
    }
    forall a | a in Actions(meta)
      ensures a.url != "" && !(ScriptScheme <= a.url) && (BaseUrl <= a.url || !("/" <= a.url))
    {
      var i :| 0 <= i < |links| && ActionOf(links[i]) == Some(a);
      var href := Attr(links[i].node, "href").GetOr("");
      if "/" <= href {
        assert a.url == BaseUrl + href;
        assert a.url[0] == 'h';
      }
    }
    FilterMapCount(links, ActionOf, (l: Hit) => Usable(Attr(l.node, "href").GetOr("")));
  }

  /** Actions keep document order: the buttons of two runs give the actions of
      the first run, then those of the second. */
  lemma ActionOrder(a: seq<Hit>, b: seq<Hit>)
    ensures FilterMap(a + b, ActionOf) == FilterMap(a, ActionOf) + FilterMap(b, ActionOf)
  {
    FilterMapAppend(a, b, ActionOf);
  }

  /** A reply without an author link is dropped; the others are kept in order. */
  lemma RepliesKept(a: seq<Hit>, b: seq<Hit>, clock: Clock)
    ensures Replies(a + b, clock) == Replies(a, clock) + Replies(b, clock)
    ensures forall item :: Find(item, PostMeta).Some? && Find(Find(item, PostMeta).value, AuthorLink).None? ==>
      Replies([item], clock) == []
  {
    FilterMapAppend(a, b, (item: Hit) => ParseReply(item, clock));
  }

  /** The converse of Uid's contract: the text after a `uid=` that is not
      followed by another one is the uid. */
  lemma UidOf(a: string, u: string)
    requires !Occurs(u, UidMarker)
    ensures Uid(a + UidMarker + u) == Some(u)
  {
    var h := a + UidMarker + u;
    assert OccursAt(h, UidMarker, |a|);
    var r := Uid(h).value;
    assert h[|h| - |r| - 4..|h| - |r|] == UidMarker;
    LastMarkerUnique(a, u, r);
  }

  /** `uid=` cannot overlap itself, so of two marker-free tails each preceded by
      the marker, neither can be longer than the other. */
  lemma LastMarkerUnique(a: string, u: string, r: string)
    requires !Occurs(u, UidMarker) && !Occurs(r, UidMarker)
    requires var h := a + UidMarker + u;
      |r| + 4 <= |h| && h[|h| - |r| - 4..] == UidMarker + r
    ensures r == u
  {
    var h := a + UidMarker + u;
    var j := |h| - |r|;
    assert h[j..] == r;
    assert OccursAt(h, UidMarker, j - 4) by {
      assert h[j - 4..j] == UidMarker;
    }
    assert OccursAt(h, UidMarker, |a|) by {
      assert h[|a|..|a| + 4] == UidMarker;
    }
    if |r| < |u| {
      if j >= |a| + 8 {
        MarkerInTail(a + UidMarker, u, j - 4);
        assert false;
      } else {
        MarkerNoOverlap(h, |a|, j - 4);
        assert false;
      }
    } else if |r| > |u| {
      if j <= |a| {
        MarkerInTail(h[..j], r, |a|);
        assert false;
      } else {
        MarkerNoOverlap(h, j - 4, |a|);
        assert false;
      }
    } else {
      assert r == h[|a| + 4..];
    }
  }

  /** Two occurrences of `uid=` are at least four characters apart. */
  lemma MarkerNoOverlap(h: string, i: int, k: int)
    requires OccursAt(h, UidMarker, i) && i < k < i + 4 && 0 <= k
    ensures !OccursAt(h, UidMarker, k)
  {
    assert h[k] == h[i..i + 4][k - i];
  }

  /** An occurrence that starts inside the tail `t` of `p + t` is one of `t`. */
  lemma MarkerInTail(p: string, t: string, i: int)
    requires OccursAt(p + t, UidMarker, i) && |p| <= i
    ensures OccursAt(t, UidMarker, i - |p|)
  {
    assert t[i - |p|..i - |p| + 4] == (p + t)[i..i + 4];
  }

  /** Every reply comes from one of the complete `post-item` blocks and has an
      id free of 'p'. */
  lemma RepliesFromItems(items: seq<Hit>, clock: Clock)
    ensures forall k :: 0 <= k < |Replies(items, clock)| ==>
      'p' !in Replies(items, clock)[k].id
      && exists i :: 0 <= i < |items| && Complete(items[i]) && ParseReply(items[i], clock) == Some(Replies(items, clock)[k])
  {
    var posts := Replies(items, clock);
    FilterMapMembers(items, (item: Hit) => ParseReply(item, clock));
    forall k | 0 <= k < |posts|
      ensures 'p' !in posts[k].id
      ensures exists i :: 0 <= i < |items| && Complete(items[i]) && ParseReply(items[i], clock) == Some(posts[k])
    {
      assert posts[k] in posts;
      var i :| 0 <= i < |items| && ParseReply(items[i], clock) == Some(posts[k]);
      assert Complete(items[i]);
    }
  }

  /** A reply id attribute `p<digits>` gives the digits; one holding no 'p' is
      kept whole. */
  lemma ReplyIdOfAnchor(item: Node, digits: string)
    requires Attr(item, "id") == Some("p" + digits) && 'p' !in digits
    ensures ReplyId(item) == digits
  {
    RemoveCharAppend("p", digits, 'p');
    RemoveCharAbsent(digits, 'p');
  }

  /** Following a pager cursor fetches exactly the page its link pointed at,
      when that link has the site's `/t/<id>/m/<t>` form. */
  lemma PagerFollowsLink(postId: string, pager: Hit, caption: string, link: Hit, t: string)
    requires Find(pager, Labelled("a", caption)) == Some(link)
    requires Attr(link.node, "href") == Some("/t/" + postId + "/m/" + t)
    requires t != "" && '/' !in t
    ensures PagerCursor(Some(pager), caption) == Some(t)
    ensures DetailUrl(postId, PagerCursor(Some(pager), caption)) == BaseUrl + "/t/" + postId + "/m/" + t
  {
    PagerRoundTrip(postId, t);
  }

  /** The route's thread: one reply per complete `post-item` of the page's
      list, each from one of those items, with a 'p'-free id. */
  lemma ThreadOfPage(postId: string, timestamp: Option<string>, fetch: string -> Option<Node>, clock: Clock)
    requires fetch(DetailUrl(postId, timestamp)).Some?
    requires Find(Root(fetch(DetailUrl(postId, timestamp)).value), PostList).Some?
    ensures var r := GetPostDetail(postId, timestamp, fetch, clock);
      && r.Thread?
      && var items := FindAll(Find(Root(fetch(DetailUrl(postId, timestamp)).value), PostList).value, PostItem);
      && |r.posts| == Count(items, Complete)
      && forall k :: 0 <= k < |r.posts| ==>
        'p' !in r.posts[k].id
        && exists i :: 0 <= i < |items| && Complete(items[i]) && ParseReply(items[i], clock) == Some(r.posts[k])
  {
    var page := fetch(DetailUrl(postId, timestamp)).value;
    var items := FindAll(Find(Root(page), PostList).value, PostItem);
    var r := GetPostDetail(postId, timestamp, fetch, clock);
    assert r.Thread? && r.posts == Replies(items, clock);
    assert |r.posts| == Count(items, Complete) by {
      FilterMapCount(items, (item: Hit) => ParseReply(item, clock), Complete);
    }
    RepliesFromItems(items, clock);
  }

  /** The route's `next_timestamp` and `prev_timestamp` follow the page's `下页`
      and `上页` links: when such a link points at `/t/<id>/m/<t>`, the cursor is
      `t` and asking for it fetches that page. */
  lemma NeighbourPages(postId: string, timestamp: Option<string>, fetch: string -> Option<Node>, clock: Clock,
                       forward: bool, link: Hit, t: string)
    requires fetch(DetailUrl(postId, timestamp)).Some?
    requires var root := Root(fetch(DetailUrl(postId, timestamp)).value);
      && Find(root, PostList).Some? && Find(root, Pagination).Some?
      && Find(Find(root, Pagination).value, Labelled("a", if forward then NextCaption else PrevCaption)) == Some(link)
    requires Attr(link.node, "href") == Some("/t/" + postId + "/m/" + t)
    requires t != "" && '/' !in t
    ensures var r := GetPostDetail(postId, timestamp, fetch, clock);
      var cursor := if forward then r.nextTimestamp else r.prevTimestamp;
      cursor == Some(t) && DetailUrl(postId, cursor) == BaseUrl + "/t/" + postId + "/m/" + t
  {
    var pager := Find(Root(fetch(DetailUrl(postId, timestamp)).value), Pagination).value;
    PagerFollowsLink(postId, pager, if forward then NextCaption else PrevCaption, link, t);
  }
}
