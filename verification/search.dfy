/**
  The search paginator `query_tweets` and its list-building wrapper
  `_query_tweets_wrapper`. `oracle[i]` is what the network answers to the
  requests of the i-th page fetch; running out of it stands for a
  `KeyboardInterrupt`, which the generator catches and ends on. The loop is
  written over any `Fetcher`; `QueryTweets` runs it with `_request_page`.
 */
module Search {
  import opened Common
  import opened Cursors
  import opened Escaping
  import opened Fetch
  import opened Pages

  /**
    The pages the `while True` loop of `query_tweets` consumes, `count`
    tweets having been yielded before: at most one per entry of the oracle.
   */
  function SearchPages(fetch: Fetcher, pos: Cursor, limit: Option<int>, count: nat, oracle: seq<seq<Attempt>>)
    : (pages: seq<PageRecord>)
    decreases |oracle|
    ensures |pages| <= |oracle|
    ensures pages != [] <==> oracle != [] && NonEmpty(fetch(pos, oracle[0]))
    ensures pages != [] ==> pages[0] == PageRecord(pos, fetch(pos, oracle[0]).tweets, fetch(pos, oracle[0]).next)
    ensures forall i :: 0 <= i < |pages| ==> pages[i].tweets != []
  {
    if oracle == [] then []
    else match fetch(pos, oracle[0])
      case Raised => []
      case Page(tweets, next) =>
        if tweets == [] then []
        else
          var n := count + |tweets|;
          [PageRecord(pos, tweets, next)]
            + (if LimitReached(limit, n) then [] else SearchPages(fetch, next, limit, n, oracle[1..]))
  }

  /**
    One turn of the loop: stop at an empty or raising fetch, else keep the
    page and go on unless the limit is reached.
   */
  lemma SearchPagesStep(fetch: Fetcher, pos: Cursor, limit: Option<int>, count: nat, oracle: seq<seq<Attempt>>)
    ensures var pages := SearchPages(fetch, pos, limit, count, oracle);
      if oracle == [] || !NonEmpty(fetch(pos, oracle[0])) then pages == []
      else
        var o := fetch(pos, oracle[0]);
        var n := count + |o.tweets|;
        pages == [PageRecord(pos, o.tweets, o.next)]
                 + (if LimitReached(limit, n) then [] else SearchPages(fetch, o.next, limit, n, oracle[1..]))
  {
  }

  /**
    The pages are non-empty results of the fetch, the first at `pos` and
    each later one at the cursor the previous fetch returned.
   */
  lemma {:induction false} SearchPagesFetched(fetch: Fetcher, pos: Cursor, limit: Option<int>, count: nat,
                                              oracle: seq<seq<Attempt>>)
    decreases |oracle|
    ensures var pages := SearchPages(fetch, pos, limit, count, oracle);
      && Fetched(fetch, pages, oracle)
      && Chained(pos, pages)
      && forall i :: 0 <= i < |pages| ==> pages[i].tweets != []
  {
    SearchPagesStep(fetch, pos, limit, count, oracle);
    if oracle != [] && NonEmpty(fetch(pos, oracle[0])) {
      var o := fetch(pos, oracle[0]);
      var n := count + |o.tweets|;
      var p := PageRecord(pos, o.tweets, o.next);
      var rest := if LimitReached(limit, n) then [] else SearchPages(fetch, o.next, limit, n, oracle[1..]);
      if !LimitReached(limit, n) {
        SearchPagesFetched(fetch, o.next, limit, n, oracle[1..]);
      }
      FetchedCons(fetch, p, rest, oracle);
      ChainedCons(pos, p, rest);
    }
  }

  /**
    The limit is checked after each page: no page but the last is preceded
    by a count that already reached the limit.
   */
  lemma {:induction false} SearchPagesBelowLimit(fetch: Fetcher, pos: Cursor, limit: Option<int>, count: nat,
                                                 oracle: seq<seq<Attempt>>)
    decreases |oracle|
    ensures BelowLimitBefore(SearchPages(fetch, pos, limit, count, oracle), limit, count)
  {
    SearchPagesStep(fetch, pos, limit, count, oracle);
    if oracle != [] && NonEmpty(fetch(pos, oracle[0])) {
      var o := fetch(pos, oracle[0]);
      var n := count + |o.tweets|;
      if !LimitReached(limit, n) {
        SearchPagesBelowLimit(fetch, o.next, limit, n, oracle[1..]);
        BelowLimitCons(PageRecord(pos, o.tweets, o.next), SearchPages(fetch, o.next, limit, n, oracle[1..]),
            limit, count);
      }
    }
  }

  /**
    Why the loop stopped: the responses ran out, or the limit was reached
    after the last page, or the fetch at the cursor after the last page
    came back empty or raised.
   */
  ghost predicate StopReason(fetch: Fetcher, pos: Cursor, limit: Option<int>, count: int,
                             oracle: seq<seq<Attempt>>, pages: seq<PageRecord>)
  {
    || |pages| >= |oracle|
    || (pages != [] && LimitReached(limit, count + |Flatten(pages)|))
    || !NonEmpty(fetch(After(pos, pages), oracle[|pages|]))
  }

  lemma {:induction false} SearchPagesStop(fetch: Fetcher, pos: Cursor, limit: Option<int>, count: nat,
                                           oracle: seq<seq<Attempt>>)
    decreases |oracle|
    ensures StopReason(fetch, pos, limit, count, oracle, SearchPages(fetch, pos, limit, count, oracle))
  {
    SearchPagesStep(fetch, pos, limit, count, oracle);
    if oracle != [] && NonEmpty(fetch(pos, oracle[0])) {
      var o := fetch(pos, oracle[0]);
      var n := count + |o.tweets|;
      var p := PageRecord(pos, o.tweets, o.next);
      if LimitReached(limit, n) {
        assert Flatten([p]) == o.tweets;
      } else {
        SearchPagesStop(fetch, o.next, limit, n, oracle[1..]);
        StopReasonCons(fetch, pos, limit, count, oracle, p, SearchPages(fetch, o.next, limit, n, oracle[1..]));
      }
    }
  }

  lemma StopReasonCons(fetch: Fetcher, pos: Cursor, limit: Option<int>, count: int,
                       oracle: seq<seq<Attempt>>, p: PageRecord, rest: seq<PageRecord>)
    requires oracle != [] && p.cursor == pos
    requires StopReason(fetch, p.next, limit, count + |p.tweets|, oracle[1..], rest)
    ensures StopReason(fetch, pos, limit, count, oracle, [p] + rest)
  {
    var pages := [p] + rest;
    assert pages[1..] == rest;
    assert Flatten(pages) == p.tweets + Flatten(rest);
    assert After(pos, pages) == After(p.next, rest);
    if |rest| < |oracle[1..]| {
      assert oracle[|pages|] == oracle[1..][|rest|];
    }
  }

  /**
    The loop consumes every page up to the first one that is empty: with no
    limit, `k` non-empty pages followed by an empty one give exactly those
    `k` pages.
   */
  lemma {:induction false} SearchPagesUpToEmpty(fetch: Fetcher, pos: Cursor, count: nat, oracle: seq<seq<Attempt>>,
                                                expected: seq<PageRecord>)
    requires |expected| < |oracle| && Chained(pos, expected) && Fetched(fetch, expected, oracle)
    requires forall i :: 0 <= i < |expected| ==> expected[i].tweets != []
    requires !NonEmpty(fetch(After(pos, expected), oracle[|expected|]))
    ensures SearchPages(fetch, pos, None, count, oracle) == expected
    decreases |expected|
  {
    SearchPagesStep(fetch, pos, None, count, oracle);
    if expected != [] {
      var p, rest := expected[0], expected[1..];
      assert fetch(pos, oracle[0]) == Page(p.tweets, p.next);
      ChainedTail(pos, expected);
      FetchedTail(fetch, expected, oracle);
      assert forall i :: 0 <= i < |rest| ==> rest[i].tweets != [] by {
        assert forall i :: 0 <= i < |rest| ==> rest[i] == expected[i + 1];
      }
      assert After(pos, expected) == After(p.next, rest);
      assert oracle[1..][|rest|] == oracle[|expected|];
      SearchPagesUpToEmpty(fetch, p.next, count + |p.tweets|, oracle[1..], rest);
      assert expected == [p] + rest;
    }
  }

  /** The tweets of a list of `(tweet, cursor)` pairs. */
  function Tweets(pairs: seq<(Tweet, Cursor)>): (r: seq<Tweet>)
    ensures |r| == |pairs| && forall k :: 0 <= k < |r| ==> r[k] == pairs[k].0
  {
    seq(|pairs|, k requires 0 <= k < |pairs| => pairs[k].0)
  }

  /** Each page's tweets, each paired with the cursor the page was fetched with. */
  function Emit(pages: seq<PageRecord>): seq<(Tweet, Cursor)>
  {
    if pages == [] then []
    else seq(|pages[0].tweets|, j requires 0 <= j < |pages[0].tweets| => (pages[0].tweets[j], pages[0].cursor))
         + Emit(pages[1..])
  }

  lemma {:induction false} EmitTweets(pages: seq<PageRecord>)
    ensures Tweets(Emit(pages)) == Flatten(pages)
  {
    if pages != [] {
      EmitTweets(pages[1..]);
    }
  }

  lemma {:induction false} EmitLength(pages: seq<PageRecord>)
    ensures |Emit(pages)| == |Flatten(pages)|
  {
    if pages != [] {
      EmitLength(pages[1..]);
    }
  }

  /**
    The j-th tweet of the i-th page is yielded at position
    `|Flatten(pages[..i])| + j`, paired with the cursor used for that page.
   */
  lemma {:induction false} EmitPairsCursor(pages: seq<PageRecord>, i: nat, j: nat)
    requires i < |pages| && j < |pages[i].tweets|
    ensures |Flatten(pages[..i])| + j < |Emit(pages)|
      && Emit(pages)[|Flatten(pages[..i])| + j] == (pages[i].tweets[j], pages[i].cursor)
  {
    EmitLength(pages);
    if i == 0 {
      assert pages[..0] == [];
    } else {
      EmitPairsCursor(pages[1..], i - 1, j);
      FlattenConsPrefix(pages[0], pages[1..], i);
      assert [pages[0]] + pages[1..] == pages;
      EmitLength(pages[1..]);
    }
  }

  /**
    The j-th tweet of the i-th page sits at position `|Flatten(pages[..i])| + j`
    of `r`, paired with the cursor that page was fetched with.
   */
  ghost predicate PairAt(pages: seq<PageRecord>, r: seq<(Tweet, Cursor)>, i: int, j: int)
    requires 0 <= i < |pages| && 0 <= j < |pages[i].tweets|
  {
    |Flatten(pages[..i])| + j < |r| && r[|Flatten(pages[..i])| + j] == (pages[i].tweets[j], pages[i].cursor)
  }

  /** `r` yields the tweets of `pages` in order, each with the cursor of its page. */
  ghost predicate PairsAt(pages: seq<PageRecord>, r: seq<(Tweet, Cursor)>)
  {
    && |r| == |Flatten(pages)|
    && forall i, j :: 0 <= i < |pages| && 0 <= j < |pages[i].tweets| ==> PairAt(pages, r, i, j)
  }

  lemma EmitPairs(pages: seq<PageRecord>)
    ensures PairsAt(pages, Emit(pages))
  {
    EmitLength(pages);
    forall i, j | 0 <= i < |pages| && 0 <= j < |pages[i].tweets|
      ensures PairAt(pages, Emit(pages), i, j)
    {
      EmitPairsCursor(pages, i, j);
    }
  }

  /** The search fetch `query_tweets` uses: `_request_page(query, lang, pos)`. */
  function SearchFetcher(query: string, lang: string): Fetcher
  {
    PageFetcher(query, lang, false)
  }

  /**
    `query_tweets(query, lang, pos, limit)`: the escaped query is searched
    and the generator yields, in order, the tweets of the pages consumed,
    each with the cursor of its page.
   */
  function QueryTweets(query: string, lang: string, pos: Cursor, limit: Option<int>, oracle: seq<seq<Attempt>>)
    : (r: seq<(Tweet, Cursor)>)
    ensures Tweets(r) == Flatten(SearchPages(SearchFetcher(EscapeQuery(query), lang), pos, limit, 0, oracle))
    ensures PairsAt(SearchPages(SearchFetcher(EscapeQuery(query), lang), pos, limit, 0, oracle), r)
  {
    var pages := SearchPages(SearchFetcher(EscapeQuery(query), lang), pos, limit, 0, oracle);
    EmitTweets(pages);
    EmitPairs(pages);
    Emit(pages)
  }

  /** `_query_tweets_wrapper`: the yielded tweets without their cursors, from the first page. */
  function QueryTweetsWrapper(query: string, lang: string, limit: Option<int>, oracle: seq<seq<Attempt>>)
    : (r: seq<Tweet>)
    ensures r == Flatten(SearchPages(SearchFetcher(EscapeQuery(query), lang), Null, limit, 0, oracle))
  {
    Tweets(QueryTweets(query, lang, Null, limit, oracle))
  }

  /**
    With a positive limit, every page but the last is fetched while the
    running count is below it, so the count passes the limit by less than
    the size of the last page.
   */
  lemma SearchLimitOvershoot(fetch: Fetcher, pos: Cursor, limit: Option<int>, oracle: seq<seq<Attempt>>)
    requires limit.Some? && limit.value > 0
    ensures var pages := SearchPages(fetch, pos, limit, 0, oracle);
      pages != [] ==> |Flatten(pages)| < limit.value + |Last(pages).tweets|
  {
    var pages := SearchPages(fetch, pos, limit, 0, oracle);
    if pages != [] {
      SearchPagesBelowLimit(fetch, pos, limit, 0, oracle);
      FlattenLast(pages);
      if |pages| == 1 {
        assert pages[..0] == [];
      } else {
        assert !LimitReached(limit, |Flatten(pages[..|pages| - 1])|);
      }
    }
  }

  /**
    With `_request_page` as the fetch, every page after the first is
    fetched at the id of the previous page's last tweet.
   */
  lemma QueryTweetsCursors(query: string, lang: string, pos: Cursor, limit: Option<int>, oracle: seq<seq<Attempt>>)
    ensures var pages := SearchPages(SearchFetcher(EscapeQuery(query), lang), pos, limit, 0, oracle);
      forall i :: 0 <= i < |pages| - 1 ==>
        pages[i].tweets != [] && pages[i + 1].cursor == IdCursor(Last(pages[i].tweets))
  {
    var fetch := SearchFetcher(EscapeQuery(query), lang);
    var pages := SearchPages(fetch, pos, limit, 0, oracle);
    SearchPagesFetched(fetch, pos, limit, 0, oracle);
    forall i | 0 <= i < |pages| - 1
      ensures pages[i].tweets != [] && pages[i + 1].cursor == IdCursor(Last(pages[i].tweets))
    {
      PageFetcherWellShaped(EscapeQuery(query), lang, false, pages[i].cursor, oracle[i]);
    }
  }
}
