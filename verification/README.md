# Forum proxy routes, modelled in Dafny

The repository is a Flask blueprint (`app/api/routes.py`) that stands between a
Vue front end and the forum at `https://assbbs.com`. It forwards sign-in,
registration and sign-out to the forum and keeps the result in the Flask
session. It also fetches the forum's listing and thread pages and turns their
HTML into JSON: post summaries with a next-page cursor, and thread replies with
their quote, author, time and action buttons. This project models the pure
logic of those routes and proves what they promise.

Modules, in dependency order:

- `Wrappers`: `Option`.
- `Seqs`: filtering, counting and Python's `str.join`.
- `PyStr`: the Python string operations the routes use. These are `strip()`,
  `replace(c, '')`, `in`, `split(sep)` and `split(sep)[-1]`.
- `PyInt`: `str(n)` and `int(s)` on strings, including underscores, a sign and
  surrounding whitespace. `int()` skips every `str.isspace()` character except
  the separators U+001C to U+001F, which make it fail wherever they stand.
- `TimeFormat`: `format_time` and the `{timestamp, formatted}` record.
- `Email`: `validate_email`, and the regular expression it uses.
- `Auth`: the session effects of login, registration, logout and status.
- `Dom`: an immutable document tree. It covers the BeautifulSoup calls the
  routes make: `find`, `find_all`, `get`, `get_text(strip=True)`, and
  `find_parent('blockquote')`.
- `Urls`: the upstream addresses and the cursors read back out of links.
- `Listing`: `get_posts`.
- `Detail`: `get_post_detail`.

The upstream forum and the clock are parameters, not calls:

- An auth route receives an `Upstream`, which is either no response or a
  status and its cookies.
- A page route receives a `fetch` function from address to parsed document.
- `format_time` receives a `Clock`, which holds the current instant and the
  host's local-time rendering.

### Where the model follows the code rather than its description

- **Sign-in failures.** `make_request` calls `raise_for_status()`, which turns
  every upstream status from 400 to 599 into `None`. So a login the forum
  answers with 401, or a registration it answers with 409, gets the 500
  "request failed" reply. The 401 / 400 "rejected" reply only happens for a
  status outside 400–599 other than 200 and 302. `Auth.SignIn` states exactly this.
- **Action type.** The action type is the button's first class
  (`get('class')[0]`). It need not be `reply` or `edit`, for example
  `<a class="btn reply">` gives type `btn`.
- **Quoted paragraphs.** `find_parent('blockquote')` climbs all the way to the
  document root, not just to `post-info`. So when the whole reply sits inside
  a `<blockquote>`, its content is empty (`Detail.QuotedBodyHasNoContent`).
- **Trailing newline.** An e-mail address with one trailing newline passes
  `validate_email`, because Python's `$` also matches before a final `\n`.

## Model

| member | source | states |
|---|---|---|
| TimeFormat.Epoch | app/api/routes.py:80 | `int(timestamp)` followed by `datetime.fromtimestamp(..., utc)` yields a second only within years 1 to 9999. An integer attribute gives itself. A text attribute gives a second exactly when `int()` reads it and the value is in that range, and the second is the value read. `None` and out-of-range integers yield nothing. |
| TimeFormat.FormatTime | app/api/routes.py:71-106 | Compute the exact elapsed time. The first bound it is under (60 s, 3600 s, 86400 s, 259200 s) picks seconds, minutes, hours or days. The count is the elapsed time in that unit, truncated toward zero. Three days or more gives the host's absolute rendering. An unreadable or out-of-range timestamp gives "". |
| TimeFormat.Ago | app/api/routes.py:83-103 | For a second t, the elapsed time since t, in exact microseconds, picks the first band it is under (60 s, 3600 s, 86400 s, 259200 s). The text is the elapsed time in that band's unit, truncated toward zero, with its suffix. Three days or more gives the host's absolute rendering. A relative text is never empty. |
| TimeFormat.SecondsCount | app/api/routes.py:87-90 | Against a whole-second bound, the elapsed seconds and microseconds compare as the whole seconds do. `int(seconds)` is the whole seconds, plus one when the time is negative with a fractional part. |
| TimeFormat.WholeUnits | app/api/routes.py:91-99 | For a non-negative elapsed time, `int(seconds / unit)` is the whole seconds divided by the unit. The microseconds never change it. |
| TimeFormat.WholeSecondsElapsed | app/api/routes.py:87-99 | With an elapsed time of exactly e whole seconds under three days, the result is "e秒前", "e/60分钟前", "e/3600小时前" or "e/86400天前", whichever bound e is under first. |
| TimeFormat.DecimalStringAgrees | app/api/routes.py:80 | A timestamp attribute holding the decimal text of t formats exactly as the integer t. |
| TimeFormat.UnreadableIsBlank | app/api/routes.py:104-106 | Text that `int()` rejects, and `None`, format as the empty string. |
| TimeFormat.StampOf | app/api/routes.py:283-286 | The `{timestamp, formatted}` record keeps the attribute as found. It is formatted exactly when the attribute is present and non-empty. |
| PyInt.ShowInt | app/api/routes.py:90 | The decimal text of an integer starts with '-' exactly when it is negative. |
| PyInt.ShowNatValue | app/api/routes.py:80 | The digits `str(n)` writes denote n. |
| PyInt.ParseShowInt | app/api/routes.py:80 | `int(str(n)) == n`: the decimal text of an integer reads back as that integer. |
| PyInt.ParseInt | app/api/routes.py:80 | `int()` on text accepts only when the stripped text is non-empty and ends in a digit, and the text holds none of the separators U+001C to U+001F. A negative value comes from text whose stripped form starts with '-'. `ParseIntAccepts` states which texts it accepts and their value. |
| PyInt.ReadSigned | app/api/routes.py:80 | Text with nothing left to strip reads as a number only when it ends in a digit. A negative number comes only from text starting with '-'. |
| PyInt.ParseIntAccepts | app/api/routes.py:80 | `int()` accepts whitespace it skips (every `str.isspace()` character except U+001C to U+001F), an optional '+' or '-', digit groups (leading zeros and single underscores between digits allowed), then whitespace it skips. The value is the groups' value with the sign applied. |
| PyInt.ParseIntRejects | app/api/routes.py:80 | Text containing a character that is not whitespace `int()` skips, a digit, a sign or '_' is rejected by `int()`. In particular any of U+001C to U+001F, anywhere, makes it fail. |
| Email.WholeMatchIff | app/api/routes.py:68 | The backtracking-free check is equivalent to the existence of an '@' and a final '.' that split the text into the pattern's three parts. |
| Email.ValidateEmail | app/api/routes.py:66-69 | An accepted address has at least six characters and starts with a local-part character. |
| Email.ValidateEmailIff | app/api/routes.py:66-69 | `validate_email` accepts exactly what `re.match` with the pattern accepts, including the `$`-before-final-newline case. |
| Email.SingleAt | app/api/routes.py:68 | A whole match has exactly one '@', and it is not the first character. |
| Email.ShapeTld | app/api/routes.py:68 | A match ends in '.' followed by at least two ASCII letters. The '.' is preceded by a domain character, never directly by the '@'. |
| Email.AcceptedShape | app/api/routes.py:66-69 | An accepted address without a newline has one '@' with a non-empty local part, and ends in '.' plus two or more letters. |
| Email.AcceptedCharsets | app/api/routes.py:68 | In an accepted address without a newline, every character before the '@' is in `[a-zA-Z0-9._-]` and every one between the '@' and the final dot is in `[a-zA-Z0-9.-]`. |
| Email.TrailingNewline | app/api/routes.py:69 | An accepted address is still accepted with one '\n' appended, but never with two. |
| Auth.Field | app/api/routes.py:113-117 | `form.get(key)` counts as given exactly when the key is present with a non-empty value. |
| Auth.SignIn | app/api/routes.py:109-206 | A missing field gives 400 with "邮箱或密码不能为空". A malformed address gives 400 with "邮箱格式错误". An unreachable upstream, or one answering 400-599, gives 500 with "登录请求失败" or "注册请求失败". A status of 200 or 302 gives 200 with the success message and the address, and stores the address and the cookies. Any other status gives 401 with "登录失败" (login) or 400 with "注册失败，邮箱可能已存在" (register). The session changes only on success. |
| Auth.Logout | app/api/routes.py:208-230 | Both session keys are always dropped. The reply is 200 with the message "登出成功" exactly when the upstream was delivered with status 200 or 302. Otherwise it is 400 with the error "登出失败". |
| Auth.Status | app/api/routes.py:459-465 | `logged_in` holds exactly when an address is stored, and `email` is that address. |
| Auth.GateIgnoresUpstream | app/api/routes.py:116-120 | A form that fails the input checks gives 400 and the same outcome whatever the upstream would have answered. |
| Auth.SignInThenStatus | app/api/routes.py:140-150 | After a successful sign-in, the status reports the submitted address. Later upstream calls replay exactly the cookies the upstream set. |
| Auth.LogoutThenStatus | app/api/routes.py:219-221 | After a logout, the status reports nobody and no cookies are replayed. |
| Auth.ReplayedCookies | app/api/routes.py:32 | Upstream calls carry the stored cookies, or none when no cookies are stored. `SignInThenStatus` and `LogoutThenStatus` state what sign-in and logout leave there. |
| Auth.HandleConsistent | app/api/routes.py:140-145 | Every request keeps the session invariant: the address and cookies are stored together, and a stored address passed `validate_email`. |
| Auth.RunConsistent | app/api/routes.py:109-230 | From a consistent session, any sequence of requests leaves a consistent one. Whenever the status reports a user, that address is valid and has cookies. |
| Auth.FreshStatus | app/api/routes.py:462-465 | A fresh session reports nobody logged in and is consistent. |
| Seqs.FilterMapAppend | app/api/routes.py:259-301 | The loop's output for two runs of items is the output of the first run followed by that of the second, so order is kept. |
| Seqs.FilterMapCount | app/api/routes.py:259-266 | The loop outputs one record per item it accepts. |
| Seqs.FilterMapMembers | app/api/routes.py:357-415 | Every output record is the image of some input item, and every accepted item contributes its image. |
| Seqs.FilterAppend | app/api/routes.py:259 | Filtering two runs gives the matches of the first followed by those of the second. |
| Seqs.Join | app/api/routes.py:379 | `sep.join(xs)` is as long as the elements together plus one separator between each pair of neighbours. |
| Seqs.JoinEnds | app/api/routes.py:379 | `sep.join(xs)` of a non-empty list starts with its first element and ends with its last. |
| PyStr.Strip | app/api/routes.py:293 | `strip()` leaves no whitespace at either end. |
| PyStr.StripIsInfix | app/api/routes.py:293 | `strip()` is the infix between the leading and trailing whitespace runs. |
| PyStr.StripUnpadded | app/api/routes.py:293 | Text with no whitespace at either end is unchanged by `strip()`. |
| PyStr.StripPadded | app/api/routes.py:293 | Whitespace on both sides of a text with no whitespace at either end is exactly what `strip()` removes. |
| PyStr.RemoveChar | app/api/routes.py:366 | `replace(c, '')` leaves no c, and keeps every other character. |
| PyStr.RemoveCharAppend | app/api/routes.py:366 | `replace(c, '')` works piecewise over concatenation. |
| PyStr.RemoveCharAbsent | app/api/routes.py:293 | Text without c is unchanged by `replace(c, '')`. |
| PyStr.IndexOf | app/api/routes.py:385 | `find` gives the first occurrence, or nothing when there is none. |
| PyStr.ContainsIff | app/api/routes.py:385 | `sep in s` holds exactly when sep occurs somewhere in s. |
| PyStr.Split | app/api/routes.py:385 | `split(sep)` gives at least one piece and no piece contains sep. There is more than one piece exactly when sep occurs. |
| PyStr.JoinSplit | app/api/routes.py:385 | Joining the pieces of `split(sep)` with sep gives the text back. |
| PyStr.LastPieceShape | app/api/routes.py:281 | `split(sep)[-1]` is a sep-free suffix. It is the whole text, or it follows an occurrence of sep. |
| PyStr.SplitJoin | app/api/routes.py:379 | Splitting a `'\n'.join` of newline-free lines on '\n' gives the lines back. |
| Dom.FindAll | app/api/routes.py:259 | `find_all` returns only matching descendants, and every matching descendant is among them. |
| Dom.FindAllPreorder | app/api/routes.py:259 | `find_all` on an element is: its first child if that matches, then the matches inside the first child, then the matches among the remaining children and their subtrees. This is document order. |
| Dom.Find | app/api/routes.py:253 | `find` gives nothing exactly when no descendant matches. Otherwise it gives the first match of `find_all`. |
| Dom.Attr | app/api/routes.py:270 | `get(key)` gives a value exactly when the node is an element carrying that attribute, and the value is that attribute's. |
| Dom.FirstClass | app/api/routes.py:395 | `get('class')[0]` is the element's first class. |
| Dom.FirstClassOfMatch | app/api/routes.py:395 | An element found by class has a non-empty class list, so `get('class')[0]` never fails on it. |
| Dom.StringOf | app/api/routes.py:426-427 | `.string` of a text node is its text. An element has one only when it has exactly one child, and it is then that child's. |
| Dom.GetText | app/api/routes.py:269 | When a node has a `.string`, `get_text(strip=True)` is that string stripped. |
| Dom.GetTextByWalk | app/api/routes.py:269 | `get_text(strip=True)` is the stripped text nodes of the descendant walk, concatenated. |
| Dom.ForestTextByWalk | app/api/routes.py:269 | The same holds for a list of siblings and their subtrees. |
| Dom.TextsOfAppend | app/api/routes.py:269 | The text of two runs of nodes is the text of the first followed by that of the second. |
| Dom.QuotedBelow | app/api/routes.py:377 | Below a `<blockquote>`, or below a node that has one above it, every node has a `<blockquote>` ancestor. |
| Dom.QuotedForest | app/api/routes.py:377 | Every node in the subtrees of quoted siblings is quoted. |
| Dom.UnquotedBelow | app/api/routes.py:377 | Below an unquoted node whose subtree has no `<blockquote>`, no node has a `<blockquote>` ancestor. |
| Dom.UnquotedForest | app/api/routes.py:377 | The same holds for unquoted siblings without a `<blockquote>`. |
| Urls.ListingUrl | app/api/routes.py:240-243 | The listing address starts with the base and '/'. It is longer than that exactly when a non-empty cursor is given. `ListingCursorRoundTrip` states the `/l/<t>` form. |
| Urls.DetailUrl | app/api/routes.py:336-339 | The thread address starts with the base, "/t/" and the post id. It is longer than that exactly when a non-empty cursor is given. |
| Urls.LastSegment | app/api/routes.py:281 | `split('/')[-1]` is a '/'-free suffix that is the whole text or follows a '/'. Text without '/' is returned whole. |
| Urls.LastSegmentAfterSlash | app/api/routes.py:281 | The last segment of `p + "/" + t` is t, for any '/'-free t. |
| Urls.ListingCursorRoundTrip | app/api/routes.py:240-243 | A non-empty '/'-free cursor t gives the address base + "/l/" + t, whose last segment is t again. |
| Urls.EmptyCursorIsFirstPage | app/api/routes.py:240-243 | An empty `timestamp` parameter addresses the first page, as a missing one does. |
| Urls.PagerRoundTrip | app/api/routes.py:336-339 | The cursor read from a `/t/<id>/m/<t>` link rebuilds exactly the address that link points to. |
| Listing.Summarize | app/api/routes.py:259-301 | An item yields a summary exactly when it has both `post-info` and `post-meta`. Its url is the base plus the href, its id is the href's last segment, and its title is the info's text. The author is the first author span's text, or absent when there is none. The creation stamp is the first date span's `time_stamp` with its formatting. `last_reply` is present exactly when there are at least two author spans, at least two date spans and a replies span. It then holds the replies span's count, the last author span's text and the last date span's stamp. |
| Listing.ReplyCount | app/api/routes.py:293 | The reply count holds no '❮' and no whitespace at either end. |
| Listing.ReplyCountOfText | app/api/routes.py:293 | A span whose text is '❮' markers and whitespace, then the number, then markers and whitespace gives exactly the number. |
| Listing.Summaries | app/api/routes.py:259-305 | The loop over `post-item` links gives at most one summary per item. `SummaryCount` and `SummaryOrder` state that it gives one per well-formed item, in document order. |
| Listing.NextCursor | app/api/routes.py:307-314 | The cursor is absent for an empty page. Otherwise it is the last post's last-reply timestamp when it has replies, and its creation timestamp otherwise. |
| Listing.GetPosts | app/api/routes.py:233-321 | A failed fetch gives 500 "获取数据失败". A page without `post-list` gives 500 "未找到帖子列表". Otherwise the reply is a listing whose posts are the summaries of the list's `post-item` links, in order. `total` is the number of posts and the cursor comes from the last post. |
| Listing.SummaryCount | app/api/routes.py:259-266 | One summary per well-formed item, however many malformed items are interspersed. |
| Listing.SummaryOrder | app/api/routes.py:259-301 | Summaries keep document order, and a malformed item contributes nothing. |
| Listing.PostIdsAreLastSegments | app/api/routes.py:280-281 | Each `post_id` is the last segment of the href its url was built from, and contains no '/'. |
| Listing.ListingOfPage | app/api/routes.py:253-321 | The route's listing has one post per well-formed item of the page's list, every `post_id` is '/'-free, and the first well-formed item comes first. |
| Detail.ReplyId | app/api/routes.py:366 | The reply id has every 'p' removed. |
| Detail.ReplyIdOfAnchor | app/api/routes.py:366 | An id attribute `p<digits>` gives back the digits. |
| Detail.Uid | app/api/routes.py:385 | A uid exists exactly when the link contains "uid=". It is then a "uid="-free tail that directly follows a "uid=". |
| Detail.UidOf | app/api/routes.py:385 | Conversely, the text after a "uid=" that is followed by no other "uid=" is the uid. |
| Detail.Resolve | app/api/routes.py:400 | A link starting with '/' gets the base address prepended. Any other link is kept as is. |
| Detail.ActionOf | app/api/routes.py:394-401 | A button yields an action exactly when its link is non-empty and does not start with "javascript:". The action's type is the button's first class, and its url is the resolved link. |
| Detail.ActionsResolved | app/api/routes.py:394-401 | Every action url is non-empty, never a script link, and absolute when the link was site-relative. There is one action per usable button. Each action is the first class and resolved link of one usable button. |
| Detail.ActionOrder | app/api/routes.py:394-401 | Actions keep the buttons' document order. |
| Detail.Actions | app/api/routes.py:393-401 | The loop over `reply`/`edit` buttons gives at most one action per button. `ActionsResolved` and `ActionOrder` state which buttons give one, what it holds, and that order is kept. |
| Detail.ParseReply | app/api/routes.py:357-419 | An item yields a reply exactly when it has `post-info` and `post-meta`, and the meta has an author link. The id, content and actions come from those blocks. The quote is the text of the info's quote block, or absent. The author name is the link's text and the uid is read from its href. The time is the date span's `time_stamp` with its formatting. |
| Detail.RepliesKept | app/api/routes.py:357-419 | Replies keep document order, and an item without an author link is dropped. |
| Detail.RepliesFromItems | app/api/routes.py:357-415 | Every reply comes from one of the page's complete `post-item` blocks and has an id without 'p'. |
| Detail.Replies | app/api/routes.py:357-419 | The loop over `post-item` blocks gives at most one reply per block. `RepliesKept`, `RepliesFromItems` and `ThreadOfPage` state that it gives one per complete block, in order. |
| Detail.DateOf | app/api/routes.py:389-390 | The reply's timestamp is the date span's `time_stamp`, or absent when there is no date span. |
| Detail.ContentLines | app/api/routes.py:374-379 | When no paragraph text contains a newline, splitting the content on '\n' gives the unquoted paragraphs back. |
| Detail.ParagraphCount | app/api/routes.py:374-378 | There is one content line per paragraph without a `<blockquote>` ancestor. |
| Detail.OwnText | app/api/routes.py:376-378 | A paragraph contributes its text exactly when `find_parent('blockquote')` finds nothing. |
| Detail.OwnParagraphs | app/api/routes.py:375-378 | The unquoted paragraph texts number at most the paragraphs. `ParagraphCount` states there is one per unquoted paragraph. |
| Detail.Content | app/api/routes.py:374-379 | The content is empty when there is no unquoted paragraph. Otherwise it starts with the first unquoted paragraph's text and ends with the last one's. |
| Detail.QuotedBodyHasNoContent | app/api/routes.py:376-377 | A reply body that itself lies in a `<blockquote>` has empty content. |
| Detail.PagerCursor | app/api/routes.py:422-431 | Without a pager there is no cursor. With one, a cursor exists exactly when the pager has a link with the caption. It is then the link's last path segment, which contains no '/'. |
| Detail.PagerFollowsLink | app/api/routes.py:426-431 | For a pager link of the form `/t/<id>/m/<t>`, the cursor is t and asking for it fetches exactly the linked page. |
| Detail.GetPostDetail | app/api/routes.py:329-441 | A failed fetch gives 500 "获取数据失败". A page without `post-list` gives 500 "未找到帖子内容". Otherwise the reply is a thread with the requested id. Its posts are the replies of the list's `post-item` blocks, in order, and its cursors are those of the pager's `下页` and `上页` links. |
| Detail.ThreadOfPage | app/api/routes.py:355-419 | When the page arrives and has a `post-list`, the route answers with a thread. It has one reply per complete `post-item` of the page's list. Each reply comes from one such item and has an id without 'p'. |
| Detail.NeighbourPages | app/api/routes.py:422-441 | When the page's `下页` (or `上页`) link points at `/t/<id>/m/<t>`, the route's `next_timestamp` (or `prev_timestamp`) is t, and asking for it fetches that page. |

## Left out

- Network I/O. `make_request` and `get_soup` (app/api/routes.py:24-64) become parameters. The only part of them kept is which upstream statuses reach the caller. Request headers, timeouts and logging are not modelled.
- TimeFormat.StampOf: one `Clock` instant stands for every `format_time` call a route makes. The source calls `datetime.now(timezone.utc)` afresh each time (app/api/routes.py:81), so a stamp formatted late in a long page may see a slightly later "now".
- HTML parsing itself. Pages arrive as trees, and comments, doctype and other non-text nodes are absent from the tree.
- `class_` matching. An element matches if any of its classes is in the list, as BeautifulSoup does. Matching against the full `class` attribute string is not modelled.
- TimeFormat.FormatTime: the absolute rendering for three days or more (`astimezone().strftime("%m/%d %H:%M")`) depends on the host's time zone. It is taken as the `localStamp` parameter of the clock.
- TimeFormat.FormatTime: the elapsed time is exact, while `total_seconds()` is a float. The two agree for elapsed times under about 2^33 seconds. Beyond that, which only a timestamp far in the future reaches, float rounding could shift the seconds count by one.
- PyInt.ParseInt: `int()` also accepts non-ASCII decimal digits (Arabic-Indic, full-width and so on). Only ASCII digits are modelled.
- PyInt.ParseInt: CPython refuses to convert text of more than 4300 digits to `int`, and the count includes leading zeros and every other digit. The model has no such limit. Most such texts are out of the year range and give "" either way. A zero-padded in-range text is the exception: `"0" * 4300 + "1700000000"` gives "" in `format_time` but formats as the second 1700000000 in the model.
- Dom.GetText: BeautifulSoup 4.10 and later leave the strings inside `<script>`, `<style>`, `<template>`, `<rt>` and `<rp>` out of `get_text`. The model gives such elements no special treatment. Their text counts like any other.
- The Flask plumbing: routing, `jsonify`, the JSON shape of the session cookie, and the 0.3 s sleep in `before_request` (app/api/routes.py:454-457).
- The outer `except` handlers of every route (app/api/routes.py:154-156, 204-206, 228-230, 324-326 and 442-452). Nothing in the modelled logic raises at that level.
- The password is forwarded unread. The upstream endpoints (`/login`, `/register`, `/logout`) and the request body are not part of the model.
- The front end (frontend/src/) and app/__init__.py are not part of this model.
