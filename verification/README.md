# twitterscraper query logic in Dafny

This project models the decision logic of `twitterscraper/query.py`, the module
that turns a search query or a user name into a list of scraped tweets by
paging through Twitter's search and timeline endpoints. The network and the
HTML/JSON parsers are abstracted away. What remains is pure logic over finite
sequences, and properties are proved about it:

- **URL template selection** (`Urls`): `get_url`, `get_search_url` and `get_user_url`
  choose one of four templates from `from_user` and the truthiness of `pos`.
- **Query escaping** (`Escaping`): the three chained `str.replace` calls of
  `query_tweets`, proved equal to a per-character reference escaping.
- **One page fetch** (`Fetch`): the retry loop of `_request_page`. It covers transport
  errors, the first-page branch (`pos is None`) and the continuation branch
  (JSON envelope). It also covers the stall rule that moves `pos` to `min_position`,
  the stale or unbound `response_json` after a malformed envelope, and the
  `([], None)` result. The fetch of a user profile (`_request_user`, `query_user`)
  is here too.
- **Search paginator** (`Search`): `query_tweets` and `_query_tweets_wrapper`.
- **User-timeline paginator** (`UserTimeline`): `query_user_tweets`, with its forward-jump
  test `int(new_pos) > int(pos)` and the tail merge.
- **Parallel search** (`Parallel`): the pool-size clamp, the date boundaries, the
  `since:`/`until:` sub-queries and the per-worker limit of `query_tweets_parallel`.
  The merge is modelled as concatenation in completion order.

Modelling choices:

- **Network**: `Attempt` is what one HTTP request yields: a transport error, or a
  response with the tweets its body parses to, read as HTML and read as a JSON envelope.
  A page fetch consumes a `seq<Attempt>`; a paginator consumes one such sequence per
  page (its "oracle"). Running out of responses stands for a `KeyboardInterrupt`:
  inside `_request_page` it escapes (`Raised`), and the paginators catch it and
  return what they have.
- **Cursors** are `Null` (`None`) or text. Tweet ids are rendered in decimal, and
  `int()` reads an optional sign followed by digits; `IntOfIdCursor` proves
  `int(str(id)) == id`.
- **Limits**: `limit` is an `Option<int>` whose truthiness follows Python
  (`None` and `0` are false).
- **Paginators** are written over any `Fetcher`, a function from cursor and
  responses to an outcome, and instantiated with `_request_page`. Properties that
  need the two result shapes of `_request_page` take them from `PageFetcherWellShaped`.

Files: `common.dfy`, `cursors.dfy`, `urls.dfy`, `escaping.dfy`, `fetch.dfy`,
`pages.dfy`, `search.dfy`, `user_timeline.dfy`, `parallel.dfy`.

## Model

| member | source | states |
|---|---|---|
| Cursors.IntOfIdCursor | twitterscraper/query.py:78 | A cursor made from a tweet id is truthy, and `int()` reads the id back from it. |
| Cursors.ParseInt | twitterscraper/query.py:78 | `int()` succeeds only on non-empty text, and on a digit string it gives that string's decimal value. |
| Urls.GetSearchUrl | twitterscraper/query.py:43-46 | The reload template iff `pos` is truthy, carrying the cursor text; both templates carry the query and the language. |
| Urls.GetUserUrl | twitterscraper/query.py:49-52 | The timeline reload template iff `pos` is truthy, carrying the cursor text; both templates carry the user. |
| Urls.GetUrl | twitterscraper/query.py:37-52 | User-reload iff `from_user` and `pos` is truthy; user-init iff `from_user` and `pos` is falsy; the same for the two search templates. A reload URL carries the cursor text; search URLs carry query and lang; user URLs carry the user. |
| Urls.FalsyCursorsShareUrl | twitterscraper/query.py:44-46 | `None` and an empty cursor select the same URL. |
| Escaping.Replace | twitterscraper/query.py:105 | One `str.replace` with a one-character pattern: every character of the result comes from the replacement or is a character of the input other than the pattern, so the pattern is gone unless the replacement brings it; an input without the pattern comes back unchanged. |
| Escaping.EscapeQuery | twitterscraper/query.py:105 | Equals the per-character escaping, contains no space, `#` or `:`, and is two characters longer per reserved character. |
| Escaping.EscapeQueryKeepsPlainText | twitterscraper/query.py:105 | A query without reserved characters is left unchanged. |
| Escaping.EscapeQueryAppend | twitterscraper/query.py:105 | Escaping distributes over concatenation, so every character is escaped independently of its neighbours. |
| Fetch.Step | twitterscraper/query.py:200-215 | One attempt: returns iff it parsed tweets, and then exactly those tweets. It aborts iff the response is a malformed continuation envelope with `response_json` still unbound. Otherwise it retries with the cursor `NextPos` gives, and the bond between `pos` and `response_json` is kept. |
| Fetch.Attempts | twitterscraper/query.py:196-224 | The loop makes at most `left` requests, the first at the given cursor, each to the URL its cursor selects. It ends in `([], None)` only after all `left`, or raises, or returns non-empty tweets with the last one's id. |
| Fetch.AttemptsTrace | twitterscraper/query.py:211-221 | Every attempt before the last one parsed nothing, and the next cursor is the envelope's `min_position`: kept after a transport error or malformed body, `None` after the first-page branch. |
| Fetch.NextPos | twitterscraper/query.py:211-213 | After an attempt that parsed nothing the cursor stays `None` in the first-page branch, and otherwise changes only to the `min_position` of an envelope that was read; a read envelope always moves it there. |
| Fetch.RequestPage | twitterscraper/query.py:187-224 | `_request_page`: at most `retry` requests, the first at `pos`. The result is `([], None)` after exactly `retry` attempts, or a non-empty parse with its last id, or an exception. An exception needs the responses to run out or a malformed first envelope after only transport errors. |
| Fetch.RequestPageFirstSuccess | twitterscraper/query.py:211-215 | A non-empty result is exactly the first non-empty parse, and every earlier attempt parsed nothing. `([], None)` means no attempt parsed anything. |
| Fetch.PageFetch | twitterscraper/query.py:187-224 | `_request_page` with its default ten retries yields `([], None)`, or non-empty tweets with the last one's id as the cursor, or an exception. |
| Fetch.AlwaysFailingTransport | twitterscraper/query.py:196-224 | With only transport errors there are exactly `retry` requests, all to the same URL, then `([], None)`. |
| Fetch.RepeatedStallEnds | twitterscraper/query.py:211-214 | Empty envelopes that repeat the same `min_position` are retried exactly `retry` times at that position; the stall rule cannot loop. |
| Fetch.FalsyCursorReadsEnvelope | twitterscraper/query.py:198-213 | An empty but non-`None` cursor requests the first-page URL yet reads the body as an envelope; an HTML body then raises, since `response_json` is unbound. |
| Fetch.PageFetcherWellShaped | twitterscraper/query.py:213-224 | `_request_page` returns `([], None)` or non-empty tweets with the last one's id as cursor. |
| Fetch.RequestUser | twitterscraper/query.py:165-184 | `None` iff the first `retry` requests all failed; interrupted iff the responses ran out first. A found profile is the first response, after nothing but failures. |
| Fetch.QueryUser | twitterscraper/query.py:55-68 | The request goes to the user's first-page URL. The result is `None` iff every request within the retry budget failed, otherwise the profile of the first response. |
| Search.SearchPages | twitterscraper/query.py:108-119 | At most one page per response list. A page is consumed iff the first fetch at `pos` returned tweets, and that page is the fetch's result at `pos`. Every consumed page is non-empty. |
| Search.SearchPagesFetched | twitterscraper/query.py:108-116 | Every page consumed is non-empty and is what the fetch returned. The first is fetched at `pos`, each later one at the cursor the previous fetch handed back. |
| Search.SearchPagesBelowLimit | twitterscraper/query.py:117-119 | No page after the first is fetched once the running count has reached the limit. |
| Search.SearchPagesStop | twitterscraper/query.py:108-119 | The loop stops only because the responses ran out, the limit was reached, or the fetch at the next cursor came back empty or raised. |
| Search.SearchPagesUpToEmpty | twitterscraper/query.py:108-116 | With no limit, `k` non-empty pages followed by an empty one are consumed exactly. |
| Search.EmitTweets | twitterscraper/query.py:113-114 | The yielded tweets are the pages' tweets concatenated in order. |
| Search.EmitPairs | twitterscraper/query.py:113-114 | Every tweet of every page is yielded, in page order, together with its page's cursor, and nothing else is yielded. |
| Search.EmitPairsCursor | twitterscraper/query.py:113-114 | Each yielded tweet is paired with the cursor its page was fetched with, at the position that follows all earlier pages. |
| Search.QueryTweets | twitterscraper/query.py:95-125 | The tweets yielded are the concatenated pages of the escaped query, searched from `pos`; the j-th tweet of the i-th page comes at position `|Flatten(pages[..i])| + j`, paired with the cursor that page was requested with. |
| Search.QueryTweetsWrapper | twitterscraper/query.py:157-162 | The list is the concatenated pages, searched from the first page. |
| Search.SearchLimitOvershoot | twitterscraper/query.py:117-119 | With a positive limit, the count exceeds the limit by less than the size of the last page. |
| Search.QueryTweetsCursors | twitterscraper/query.py:109-115 | With `_request_page`, every page after the first is fetched at the id of the previous page's last tweet. |
| UserTimeline.TailMerge | twitterscraper/query.py:78-81 | Keeps the collected list as a prefix and appends a subsequence of the page whose timestamps strictly decrease from the last collected tweet. With nothing collected it appends nothing, because `tweets[-1]` raises. Which tweets are appended is stated by `UserTimeline.TailMergeSelects`. |
| UserTimeline.TailMergeSelects | twitterscraper/query.py:79-81 | With a non-empty list, exactly the selection is appended: page tweet `j` is appended iff its timestamp is below the last collected tweet's and below that of every earlier page tweet. The appended tweets keep page order. |
| UserTimeline.TailMergeWrappedPage | twitterscraper/query.py:79-81 | After a tweet at time 10, a wrapped page at times 15, 12, 8, 5 contributes the tweets at 8 and 5. |
| UserTimeline.TailMergeAppendsOlderRun | twitterscraper/query.py:79-81 | A newest-first page that starts below the last collected tweet is appended whole. |
| UserTimeline.TailMergeDropsNewer | twitterscraper/query.py:79-81 | Tweets no older than the last collected one are all dropped. |
| UserTimeline.Reversed | twitterscraper/query.py:78 | The forward-jump test is false for a falsy `pos` and raises unless both cursors convert with `int()`. It holds iff `pos` is truthy, both convert, and the new cursor's value is larger. |
| UserTimeline.UserPages | twitterscraper/query.py:76-86 | At most one page per response list. A page is appended iff the first fetch returned a page that passed the forward-jump test, and that page is the fetch's result at `pos`. Stopping on the limit needs an appended page. |
| UserTimeline.UserPagesFetched | twitterscraper/query.py:76-86 | Every page appended is what the fetch returned and passed the forward-jump test, and the pages are chained by their cursors. |
| UserTimeline.UserPagesStop | twitterscraper/query.py:76-90 | The loop ends on an interrupt after every response was used, or on the limit reached by the last page. Otherwise it ends on an exception from the fetch or from `int()`, or on a forward jump, whose page is then merged. |
| UserTimeline.UserPagesBelowLimit | twitterscraper/query.py:84-85 | The limit is checked after each page and never before the first. |
| UserTimeline.UserPagesCursorInvariant | twitterscraper/query.py:77-83 | With `_request_page`'s result shapes, the cursor is `None` or the id of the last tweet collected. A forward jump happens only past a non-empty list, on a page whose last id is larger than the last collected id. |
| UserTimeline.QueryUserTweets | twitterscraper/query.py:71-92 | The result is the appended pages, followed by the tail-merge selection of the forward-jump page if that is why the loop ended: the page tweets older than the last collected one and than every earlier page tweet. |
| UserTimeline.QueryUserTweetsReversal | twitterscraper/query.py:77-81 | When the loop ends on a forward jump, the list is non-empty and the page's last id exceeds the last collected id. What is merged strictly decreases in timestamp. |
| UserTimeline.QueryUserTweetsIdsDescend | twitterscraper/query.py:77-83 | A page fetched at a truthy cursor is non-empty, and its last id is no larger than the last id collected before it. |
| Parallel.PoolSize | twitterscraper/query.py:131-133 | The pool size is the smaller of the requested size and the number of days. |
| Parallel.Boundaries | twitterscraper/query.py:134-135 | `pool + 1` dates from `begin` to `begin + days`, strictly increasing, each step `days // pool` or one more. |
| Parallel.RangesTile | twitterscraper/query.py:137-138 | Strictly increasing boundaries tile the period from the first to the last: the ranges between them are non-empty and every day lies in exactly one of them. |
| Parallel.LimitPerPool | twitterscraper/query.py:136 | Present iff the limit is truthy, and then `pool * (v - 1) <= limit < pool * v` (Python floor division). |
| Parallel.Ranges | twitterscraper/query.py:137-138 | The `(since, until)` pairs of neighbouring boundaries run from the first boundary to the last, each starts where the previous one ends, and none is empty when the boundaries strictly increase. |
| Parallel.SubQuery | twitterscraper/query.py:137 | A worker's query is the original query, then ` since:` and the rendered first day, then ` until:` and the rendered end day; its length is the query's plus 14 plus the two rendered dates. |
| Parallel.WorkerResults | twitterscraper/query.py:131-146 | One result per worker, `min(poolsize, days)` of them. Worker `i` runs `_query_tweets_wrapper` on the query narrowed to boundaries `i` and `i + 1`, with the per-pool limit and its own responses; these date ranges tile the period, so every day is searched by exactly one worker. |
| Parallel.BoundariesTile | twitterscraper/query.py:134-138 | The workers' boundaries start at `begin`, end at `begin + days`, strictly increase, and every day in between lies in exactly one of their ranges. |
| Parallel.Merge | twitterscraper/query.py:145-146 | Extending by each delivered list in turn gives the delivered lists concatenated in delivery order. |
| Parallel.QueryTweetsParallel | twitterscraper/query.py:128-154 | The returned list is exactly the delivered workers' lists concatenated in delivery order, so an interrupted merge keeps every list delivered before the interrupt. It is contained, as a multiset, in all the workers' results, and equals them when every worker was delivered. |
| Parallel.MergeUnordered | twitterscraper/query.py:145-147 | Extending by results in any delivery order gives, as a multiset, the results concatenated in pool order. A partial delivery gives a sub-multiset. |
| Parallel.MergeLength | twitterscraper/query.py:145-147 | A partial delivery merges at most as many tweets as the workers returned; a complete delivery merges exactly as many. |
| Parallel.MergedAtLeast | twitterscraper/query.py:136-147 | If every worker delivered at least `v` tweets, the merge holds at least `pool * v`. |
| Parallel.ParallelExceedsLimit | twitterscraper/query.py:136-147 | If every worker reached its share `limit // pool + 1`, the merged list holds more than `limit` tweets. |
| Parallel.TenDaysFiveWorkers | twitterscraper/query.py:131-136 | Ten days over five workers give boundaries every two days; twenty requested workers are clamped to ten; a limit of 25 over five workers gives 6 each. |

## Left out

- HTTP requests, the random choice of request headers and the formatting of URL strings are not modelled. A `Url` records which template was chosen and the values filled into it.
- `json.loads`, `Tweet.from_html` and `User.from_html` are foreign parsers. Each response is given as the tweets its body parses to, read as HTML and read as a JSON envelope (`NotJson` when `json.loads` raises). A `KeyError` on an envelope without `items_html` or `min_position` is not modelled. Neither is the `TypeError` raised at line 206 when the body is valid JSON but not an object (a list, a number, a string); `NotJson` covers only bodies `json.loads` rejects.
- Tweets keep only `id` and `timestamp`; the other fields play no part in paging.
- `int()` is modelled for an optional sign followed by ASCII digits. Whitespace, underscores and non-ASCII digits that Python also accepts are not modelled, since cursors here are rendered ids or upstream `min_position` text.
- A `KeyboardInterrupt` is modelled as the responses running out. Any other exception escaping `_request_page` ends a paginator the same way as its catch-all handler, returning what was collected. Logging is not modelled.
- The user loop never ends on an empty first page (`pos` stays `None`) unless `limit` is negative, when `len(tweets) >= limit` already holds. Otherwise it ends here when the responses run out, since their number bounds the pages.
- `query_user` catches every exception and returns `None`. The model has no exception there besides an interrupt, which also yields `None`.
- Parallel.Boundaries: `np.linspace` floats and `datetime` arithmetic are idealised as exact day numbers `begin + floor(i * days / pool)`. Float rounding is not modelled.
- Parallel.SubQuery: how `datetime.date` prints a day is the parameter `dateText`.
- Parallel.QueryTweetsParallel: `multiprocessing.Pool` and `imap_unordered` are concurrency. The completion order is the parameter `order`, and each worker reads its own responses. Pool close and join are not modelled.
- Parallel.QueryTweetsParallel: requires `days >= 1` and `poolsize >= 1`. Otherwise the source fails outside its handlers: `limit // 0`, `Pool(0)`, or a negative `linspace` count.
