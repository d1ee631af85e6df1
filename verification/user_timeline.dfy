/**
  The user-timeline paginator `query_user_tweets`. Pages are fetched in
  `from_user` mode and appended until the limit is reached, the responses
  run out (an interrupt), an exception escapes, or the cursor jumps forward
  (`int(new_pos) > int(pos)`): then the upstream has wrapped round to newer
  tweets, and only those of the last page that are older than what was
  collected are added, after which the loop ends. The loop is written over
  any `Fetcher`; `QueryUserTweets` runs it with `_request_page`.
 */
module UserTimeline {
  import opened Common
  import opened Cursors
  import opened Fetch
  import opened Pages

  predicate IsSubsequence<T(==)>(xs: seq<T>, ys: seq<T>)
  {
    if xs == [] then true
    else if ys == [] then false
    else if xs[0] == ys[0] then IsSubsequence(xs[1..], ys[1..])
    else IsSubsequence(xs, ys[1..])
  }

  /** Strictly decreasing timestamps, newest first. */
  ghost predicate StrictlyOlder(s: seq<Tweet>)
  {
    forall i :: 0 < i < |s| ==> s[i].timestamp < s[i - 1].timestamp
  }

  /**
    The tail merge: each tweet of `page`, in order, is appended when it is
    strictly older than the tweet currently last. With nothing collected
    `tweets[-1]` raises on the first tweet and nothing is appended.
    The result extends `acc` by a subsequence of `page` whose timestamps
    keep decreasing strictly from the last collected tweet.
   */
  function TailMerge(acc: seq<Tweet>, page: seq<Tweet>): (r: seq<Tweet>)
    decreases |page|
    ensures |acc| <= |r| && r[..|acc|] == acc
    ensures acc == [] ==> r == []
    ensures acc != [] ==> forall i :: |acc| <= i < |r| ==> r[i].timestamp < r[i - 1].timestamp
    ensures IsSubsequence(r[|acc|..], page)
  {
    if page == [] || acc == [] then
      assert acc[|acc|..] == [];
      acc
    else if Last(acc).timestamp > page[0].timestamp then
      var r := TailMerge(acc + [page[0]], page[1..]);
      assert r[..|acc|] == acc by {
        assert r[..|acc| + 1][..|acc|] == r[..|acc|];
      }
      assert r[|acc|..] == [page[0]] + r[|acc| + 1..];
      assert ([page[0]] + r[|acc| + 1..])[1..] == r[|acc| + 1..];
      r
    else
      TailMerge(acc, page[1..])
  }

  /**
    A page that is itself newest-first and starts below the last collected
    tweet is appended whole.
   */
  lemma {:induction false} TailMergeAppendsOlderRun(acc: seq<Tweet>, page: seq<Tweet>)
    requires acc != [] && StrictlyOlder(page)
    requires page != [] ==> page[0].timestamp < Last(acc).timestamp
    ensures TailMerge(acc, page) == acc + page
    decreases |page|
  {
    if page != [] {
      var acc', rest := acc + [page[0]], page[1..];
      TailMergeTakes(acc, page);
      StrictlyOlderTail(page);
      assert Last(acc') == page[0];
      TailMergeAppendsOlderRun(acc', rest);
      assert acc' + rest == acc + page;
    }
  }

  /** The tail merge appends a first tweet that is older than the last collected one. */
  lemma TailMergeTakes(acc: seq<Tweet>, page: seq<Tweet>)
    requires acc != [] && page != [] && page[0].timestamp < Last(acc).timestamp
    ensures TailMerge(acc, page) == TailMerge(acc + [page[0]], page[1..])
  {
  }

  lemma StrictlyOlderTail(page: seq<Tweet>)
    requires page != [] && StrictlyOlder(page)
    ensures StrictlyOlder(page[1..])
    ensures |page| > 1 ==> page[1].timestamp < page[0].timestamp
  {
    var rest := page[1..];
    forall i | 0 < i < |rest|
      ensures rest[i].timestamp < rest[i - 1].timestamp
    {
      assert rest[i] == page[i + 1] && rest[i - 1] == page[i];
    }
  }

  /** Tweets no older than the last collected one are all dropped. */
  lemma {:induction false} TailMergeDropsNewer(acc: seq<Tweet>, page: seq<Tweet>)
    requires acc != []
    requires forall i :: 0 <= i < |page| ==> page[i].timestamp >= Last(acc).timestamp
    ensures TailMerge(acc, page) == acc
    decreases |page|
  {
    if page != [] {
      TailMergeDropsNewer(acc, page[1..]);
    }
  }

  /**
    Whether the tail merge keeps tweet `j` of `page` when the last
    collected tweet has timestamp `bound`: it must be older than that tweet
    and than every earlier tweet of the page, i.e. a new strict running
    minimum.
   */
  predicate TailKept(bound: int, page: seq<Tweet>, j: nat)
    requires j < |page|
  {
    page[j].timestamp < bound && forall i :: 0 <= i < j ==> page[j].timestamp < page[i].timestamp
  }

  /** Reference for the tail merge: the kept tweets among the first `n` of `page`, in page order. */
  function TailSelection(bound: int, page: seq<Tweet>, n: nat): seq<Tweet>
    requires n <= |page|
  {
    if n == 0 then []
    else TailSelection(bound, page, n - 1) + (if TailKept(bound, page, n - 1) then [page[n - 1]] else [])
  }

  /** The oldest timestamp among `bound` and the first `k` tweets of the page. */
  function RunMin(bound: int, page: seq<Tweet>, k: nat): int
    requires k <= |page|
  {
    if k == 0 then bound
    else
      var m := RunMin(bound, page, k - 1);
      if page[k - 1].timestamp < m then page[k - 1].timestamp else m
  }

  /** Being below the running minimum is being below the bound and each of the first `k` tweets. */
  lemma {:induction false} BelowRunMin(bound: int, page: seq<Tweet>, k: nat, x: int)
    requires k <= |page|
    ensures x < RunMin(bound, page, k) <==> x < bound && forall i :: 0 <= i < k ==> x < page[i].timestamp
  {
    if k > 0 {
      BelowRunMin(bound, page, k - 1, x);
    }
  }

  /** A tweet is kept iff it is below the running minimum of what precedes it. */
  lemma KeptIffBelowRunMin(bound: int, page: seq<Tweet>, j: nat)
    requires j < |page|
    ensures TailKept(bound, page, j) <==> page[j].timestamp < RunMin(bound, page, j)
  {
    BelowRunMin(bound, page, j, page[j].timestamp);
  }

  /**
    After the first `k` tweets of the page, the tail merge has appended
    exactly their selection, and the tweet now last carries the running
    minimum.
   */
  lemma {:induction false} TailMergeAfter(acc: seq<Tweet>, page: seq<Tweet>, k: nat)
    requires acc != [] && k <= |page|
    ensures var sel := acc + TailSelection(Last(acc).timestamp, page, k);
      && TailMerge(acc, page) == TailMerge(sel, page[k..])
      && Last(sel).timestamp == RunMin(Last(acc).timestamp, page, k)
  {
    var b := Last(acc).timestamp;
    if k == 0 {
      assert acc + TailSelection(b, page, 0) == acc;
      assert page[0..] == page;
    } else {
      TailMergeAfter(acc, page, k - 1);
      var prev, t := acc + TailSelection(b, page, k - 1), page[k - 1];
      TailMergeStep(prev, page, k - 1);
      KeptIffBelowRunMin(b, page, k - 1);
      if t.timestamp < Last(prev).timestamp {
        assert acc + TailSelection(b, page, k) == prev + [t];
      } else {
        assert acc + TailSelection(b, page, k) == prev;
      }
    }
  }

  /** One tweet of the tail merge: appended iff older than the tweet currently last. */
  lemma TailMergeStep(sel: seq<Tweet>, page: seq<Tweet>, k: nat)
    requires sel != [] && k < |page|
    ensures page[k].timestamp < Last(sel).timestamp ==>
        TailMerge(sel, page[k..]) == TailMerge(sel + [page[k]], page[k + 1..])
    ensures page[k].timestamp >= Last(sel).timestamp ==> TailMerge(sel, page[k..]) == TailMerge(sel, page[k + 1..])
  {
    assert page[k..][1..] == page[k + 1..];
  }

  /**
    The tail merge appends exactly the selection: tweet `j` of the page is
    appended iff it is older than the last collected tweet and than every
    earlier tweet of the page.
   */
  lemma TailMergeSelects(acc: seq<Tweet>, page: seq<Tweet>)
    requires acc != []
    ensures TailMerge(acc, page) == acc + TailSelection(Last(acc).timestamp, page, |page|)
  {
    TailMergeAfter(acc, page, |page|);
    assert page[|page|..] == [];
  }

  /**
    A wrapped page: after a tweet at time 10, a page at times 15, 12, 8, 5
    contributes the tweets at 8 and 5.
   */
  lemma TailMergeWrappedPage()
    ensures TailMerge([Tweet(1, 10)], [Tweet(2, 15), Tweet(3, 12), Tweet(4, 8), Tweet(5, 5)])
            == [Tweet(1, 10), Tweet(4, 8), Tweet(5, 5)]
  {
    var page := [Tweet(2, 15), Tweet(3, 12), Tweet(4, 8), Tweet(5, 5)];
    TailMergeSelects([Tweet(1, 10)], page);
    assert !TailKept(10, page, 0) && !TailKept(10, page, 1);
    assert TailKept(10, page, 2) && TailKept(10, page, 3);
  }

  /**
    The forward-jump test: `Some(true)` when the cursor was truthy and
    jumped forward, `Some(false)` when the loop goes on, `None` when `int()`
    raises (a `None` or non-numeric cursor).
   */
  function Reversed(pos: Cursor, next: Cursor): (r: Option<bool>)
    ensures !Truthy(pos) ==> r == Some(false)
    ensures Truthy(pos) ==> (r.Some? <==> IntOf(next).Some? && IntOf(pos).Some?)
    ensures r == Some(true) <==>
        Truthy(pos) && IntOf(next).Some? && IntOf(pos).Some? && IntOf(next).value > IntOf(pos).value
  {
    if !Truthy(pos) then Some(false)
    else match IntOf(next)
      case None => None
      case Some(n) =>
        match IntOf(pos)
        case None => None
        case Some(p) => Some(n > p)
  }

  datatype Stop = Interrupted | Aborted | LimitHit | Reversal(page: seq<Tweet>)

  /** The pages appended to the timeline, and why the loop ended. */
  datatype UserRun = UserRun(pages: seq<PageRecord>, stop: Stop)

  /**
    The `while True` loop of `query_user_tweets` at cursor `pos` with
    `acc` collected: at most one page per entry of the oracle.
   */
  function UserPages(fetch: Fetcher, pos: Cursor, acc: seq<Tweet>, limit: Option<int>, oracle: seq<seq<Attempt>>)
    : (run: UserRun)
    decreases |oracle|
    ensures |run.pages| <= |oracle|
    ensures run.pages != [] <==> Continues(fetch, pos, oracle)
    ensures run.pages != [] ==>
        run.pages[0] == PageRecord(pos, fetch(pos, oracle[0]).tweets, fetch(pos, oracle[0]).next)
    ensures run.stop.LimitHit? ==> run.pages != []
  {
    if oracle == [] then UserRun([], Interrupted)
    else match fetch(pos, oracle[0])
      case Raised => UserRun([], Aborted)
      case Page(tweets, next) =>
        match Reversed(pos, next)
        case None => UserRun([], Aborted)
        case Some(true) => UserRun([], Reversal(tweets))
        case Some(false) =>
          var rest := if LimitReached(limit, |acc + tweets|) then UserRun([], LimitHit)
                      else UserPages(fetch, next, acc + tweets, limit, oracle[1..]);
          UserRun([PageRecord(pos, tweets, next)] + rest.pages, rest.stop)
  }

  /** True when the loop keeps the page the fetch at `pos` returns. */
  predicate Continues(fetch: Fetcher, pos: Cursor, oracle: seq<seq<Attempt>>)
  {
    oracle != [] && fetch(pos, oracle[0]).Page? && Reversed(pos, fetch(pos, oracle[0]).next) == Some(false)
  }

  /** One turn of the loop that keeps its page. */
  lemma UserPagesStep(fetch: Fetcher, pos: Cursor, acc: seq<Tweet>, limit: Option<int>, oracle: seq<seq<Attempt>>)
    requires Continues(fetch, pos, oracle)
    ensures var o := fetch(pos, oracle[0]);
      var run := UserPages(fetch, pos, acc, limit, oracle);
      var rest := if LimitReached(limit, |acc + o.tweets|) then UserRun([], LimitHit)
                  else UserPages(fetch, o.next, acc + o.tweets, limit, oracle[1..]);
      run == UserRun([PageRecord(pos, o.tweets, o.next)] + rest.pages, rest.stop)
  {
  }

  /**
    The pages the loop appends are results of the fetch, chained by their
    cursors, and each passed the forward-jump test.
   */
  lemma {:induction false} UserPagesFetched(fetch: Fetcher, pos: Cursor, acc: seq<Tweet>, limit: Option<int>,
                                            oracle: seq<seq<Attempt>>)
    decreases |oracle|
    ensures var pages := UserPages(fetch, pos, acc, limit, oracle).pages;
      && Fetched(fetch, pages, oracle)
      && Chained(pos, pages)
      && forall i :: 0 <= i < |pages| ==> Reversed(pages[i].cursor, pages[i].next) == Some(false)
  {
    if Continues(fetch, pos, oracle) {
      UserPagesStep(fetch, pos, acc, limit, oracle);
      var o := fetch(pos, oracle[0]);
      var p := PageRecord(pos, o.tweets, o.next);
      var collected := acc + o.tweets;
      var rest := if LimitReached(limit, |collected|) then []
          else UserPages(fetch, o.next, collected, limit, oracle[1..]).pages;
      if !LimitReached(limit, |collected|) {
        UserPagesFetched(fetch, o.next, collected, limit, oracle[1..]);
      }
      FetchedCons(fetch, p, rest, oracle);
      ChainedCons(pos, p, rest);
      var pages := [p] + rest;
      forall i | 0 <= i < |pages|
        ensures Reversed(pages[i].cursor, pages[i].next) == Some(false)
      {
        if i > 0 {
          assert pages[i] == rest[i - 1];
        }
      }
    }
  }

  /**
    Why the loop ended: an interrupt once every response was used; the
    limit, reached by the tweets of the last page; an exception from the
    fetch or from `int()` at the next page; or a forward jump at the next
    page, whose tweets are then tail-merged.
   */
  ghost predicate UserStopReason(fetch: Fetcher, pos: Cursor, count: int, limit: Option<int>,
                                 oracle: seq<seq<Attempt>>, run: UserRun)
  {
    match run.stop
    case Interrupted => |run.pages| == |oracle|
    case LimitHit => run.pages != [] && LimitReached(limit, count + |Flatten(run.pages)|)
    case Aborted =>
      && |run.pages| < |oracle|
      && var o := fetch(After(pos, run.pages), oracle[|run.pages|]);
         o.Raised? || Reversed(After(pos, run.pages), o.next).None?
    case Reversal(page) =>
      && |run.pages| < |oracle|
      && var o := fetch(After(pos, run.pages), oracle[|run.pages|]);
         o.Page? && o.tweets == page && Reversed(After(pos, run.pages), o.next) == Some(true)
  }

  lemma {:induction false} UserPagesStop(fetch: Fetcher, pos: Cursor, acc: seq<Tweet>, limit: Option<int>,
                                         oracle: seq<seq<Attempt>>)
    decreases |oracle|
    ensures UserStopReason(fetch, pos, |acc|, limit, oracle, UserPages(fetch, pos, acc, limit, oracle))
  {
    if Continues(fetch, pos, oracle) {
      UserPagesStep(fetch, pos, acc, limit, oracle);
      var o := fetch(pos, oracle[0]);
      var p := PageRecord(pos, o.tweets, o.next);
      var collected := acc + o.tweets;
      if LimitReached(limit, |collected|) {
        assert Flatten([p]) == o.tweets;
      } else {
        UserPagesStop(fetch, o.next, collected, limit, oracle[1..]);
        UserStopReasonCons(fetch, pos, |acc|, limit, oracle, p,
            UserPages(fetch, o.next, collected, limit, oracle[1..]));
      }
    }
  }

  lemma UserStopReasonCons(fetch: Fetcher, pos: Cursor, count: int, limit: Option<int>,
                           oracle: seq<seq<Attempt>>, p: PageRecord, rest: UserRun)
    requires oracle != [] && p.cursor == pos
    requires UserStopReason(fetch, p.next, count + |p.tweets|, limit, oracle[1..], rest)
    ensures UserStopReason(fetch, pos, count, limit, oracle, UserRun([p] + rest.pages, rest.stop))
  {
    var pages := [p] + rest.pages;
    assert pages[1..] == rest.pages;
    assert Flatten(pages) == p.tweets + Flatten(rest.pages);
    assert After(pos, pages) == After(p.next, rest.pages);
    if |rest.pages| < |oracle[1..]| {
      assert oracle[|pages|] == oracle[1..][|rest.pages|];
    }
  }

  /** The limit is checked after each page, never before the first. */
  lemma {:induction false} UserPagesBelowLimit(fetch: Fetcher, pos: Cursor, acc: seq<Tweet>, limit: Option<int>,
                                               oracle: seq<seq<Attempt>>)
    decreases |oracle|
    ensures BelowLimitBefore(UserPages(fetch, pos, acc, limit, oracle).pages, limit, |acc|)
  {
    if Continues(fetch, pos, oracle) {
      UserPagesStep(fetch, pos, acc, limit, oracle);
      var o := fetch(pos, oracle[0]);
      var collected := acc + o.tweets;
      if !LimitReached(limit, |collected|) {
        UserPagesBelowLimit(fetch, o.next, collected, limit, oracle[1..]);
        BelowLimitCons(PageRecord(pos, o.tweets, o.next), UserPages(fetch, o.next, collected, limit, oracle[1..]).pages,
                       limit, |acc|);
      }
    }
  }

  /**
    The loop's invariant, for a fetch with the shapes `_request_page`
    returns: the cursor is `None`, or it is the id of the last tweet
    collected, so a truthy cursor implies a non-empty list. A forward jump
    therefore happens only past a non-empty list, on a non-empty page
    whose last id is larger than the last collected id.
   */
  lemma UserPagesCursorInvariant(fetch: Fetcher, pos: Cursor, acc: seq<Tweet>, limit: Option<int>,
                                 oracle: seq<seq<Attempt>>)
    requires forall c, a :: WellShaped(fetch(c, a))
    requires CursorTracks(acc, pos)
    ensures var run := UserPages(fetch, pos, acc, limit, oracle);
      var all := acc + Flatten(run.pages);
      && CursorTracks(all, After(pos, run.pages))
      && (run.stop.Reversal? ==>
            all != [] && run.stop.page != [] && Last(run.stop.page).id > Last(all).id)
  {
    var run := UserPages(fetch, pos, acc, limit, oracle);
    var all := acc + Flatten(run.pages);
    var c := After(pos, run.pages);
    if run.pages == [] {
      assert all == acc;
    } else {
      PrefixCursorInvariant(fetch, pos, acc, limit, oracle, |run.pages|);
      assert run.pages[..|run.pages|] == run.pages;
    }
    if run.stop.Reversal? {
      UserPagesStop(fetch, pos, acc, limit, oracle);
      var o := fetch(c, oracle[|run.pages|]);
      assert WellShaped(o);
      IntOfIdCursor(Last(all));
      assert o.tweets != [];
      IntOfIdCursor(Last(o.tweets));
    }
  }

  /** `_request_page(user, pos=pos, from_user=True)`. */
  function UserFetcher(user: string): Fetcher
  {
    PageFetcher(user, "", true)
  }

  lemma UserFetcherWellShaped(user: string)
    ensures forall c, a :: WellShaped(UserFetcher(user)(c, a))
  {
    forall c, a
      ensures WellShaped(UserFetcher(user)(c, a))
    {
      PageFetcherWellShaped(user, "", true, c, a);
    }
  }

  /**
    `query_user_tweets(user, limit)`: the pages the loop appended, followed
    by the tail merge of the page that jumped forward, if that is why the
    loop ended.
   */
  function QueryUserTweets(user: string, limit: Option<int>, oracle: seq<seq<Attempt>>): (r: seq<Tweet>)
    ensures var run := UserPages(UserFetcher(user), Null, [], limit, oracle);
      && Flatten(run.pages) <= r
      && (!run.stop.Reversal? ==> r == Flatten(run.pages))
      && (run.stop.Reversal? ==> IsSubsequence(r[|Flatten(run.pages)|..], run.stop.page))
      && (run.stop.Reversal? && Flatten(run.pages) != [] ==>
            r == Flatten(run.pages) + TailSelection(Last(Flatten(run.pages)).timestamp, run.stop.page, |run.stop.page|))
  {
    var run := UserPages(UserFetcher(user), Null, [], limit, oracle);
    var base := Flatten(run.pages);
    if run.stop.Reversal? then
      assert base != [] ==>
          TailMerge(base, run.stop.page) == base + TailSelection(Last(base).timestamp, run.stop.page, |run.stop.page|)
      by {
        if base != [] {
          TailMergeSelects(base, run.stop.page);
        }
      }
      TailMerge(base, run.stop.page)
    else base
  }

  /**
    Run with `_request_page`: a forward jump is only ever taken past a
    non-empty list, so the tail merge has a last tweet to compare with,
    and what it adds is strictly older than it, newest first.
   */
  lemma QueryUserTweetsReversal(user: string, limit: Option<int>, oracle: seq<seq<Attempt>>)
    ensures var run := UserPages(UserFetcher(user), Null, [], limit, oracle);
      var base := Flatten(run.pages);
      var r := QueryUserTweets(user, limit, oracle);
      run.stop.Reversal? ==>
        && base != []
        && run.stop.page != []
        && Last(run.stop.page).id > Last(base).id
        && forall i :: |base| <= i < |r| ==> r[i].timestamp < r[i - 1].timestamp
  {
    var fetch := UserFetcher(user);
    UserFetcherWellShaped(user);
    UserPagesCursorInvariant(fetch, Null, [], limit, oracle);
    var run := UserPages(fetch, Null, [], limit, oracle);
    assert [] + Flatten(run.pages) == Flatten(run.pages);
  }

  /**
    Run with `_request_page`, the last ids of the appended pages never go
    up: every page fetched at a truthy cursor is non-empty and ends at an
    id no larger than the last one collected before it.
   */
  lemma QueryUserTweetsIdsDescend(user: string, limit: Option<int>, oracle: seq<seq<Attempt>>)
    ensures var pages := UserPages(UserFetcher(user), Null, [], limit, oracle).pages;
      forall i :: 0 <= i < |pages| && Truthy(pages[i].cursor) ==>
        && pages[i].tweets != []
        && Flatten(pages[..i]) != []
        && Last(pages[i].tweets).id <= Last(Flatten(pages[..i])).id
  {
    var fetch := UserFetcher(user);
    var pages := UserPages(fetch, Null, [], limit, oracle).pages;
    UserFetcherWellShaped(user);
    UserPagesFetched(fetch, Null, [], limit, oracle);
    forall i | 0 <= i < |pages| && Truthy(pages[i].cursor)
      ensures && pages[i].tweets != []
              && Flatten(pages[..i]) != []
              && Last(pages[i].tweets).id <= Last(Flatten(pages[..i])).id
    {
      CursorBeforePage(fetch, limit, oracle, i);
      assert pages[i].cursor == IdCursor(Last(Flatten(pages[..i])));
      IntOfIdCursor(Last(Flatten(pages[..i])));
      IntOfIdCursor(Last(pages[i].tweets));
    }
  }

  /** The cursor page `i` is fetched with is `None` or the last id of the earlier pages. */
  lemma CursorBeforePage(fetch: Fetcher, limit: Option<int>, oracle: seq<seq<Attempt>>, i: nat)
    requires forall c, a :: WellShaped(fetch(c, a))
    requires i < |UserPages(fetch, Null, [], limit, oracle).pages|
    ensures var pages := UserPages(fetch, Null, [], limit, oracle).pages;
      CursorTracks(Flatten(pages[..i]), pages[i].cursor)
  {
    var pages := UserPages(fetch, Null, [], limit, oracle).pages;
    UserPagesFetched(fetch, Null, [], limit, oracle);
    if i > 0 {
      PrefixCursorInvariant(fetch, Null, [], limit, oracle, i);
      assert pages[i].cursor == pages[i - 1].next;
      assert [] + Flatten(pages[..i]) == Flatten(pages[..i]);
    }
  }

  /** The cursor is `None` or the id of the last tweet collected. */
  predicate CursorTracks(acc: seq<Tweet>, c: Cursor)
  {
    c.Null? || (acc != [] && c == IdCursor(Last(acc)))
  }

  /** A page of the shape `_request_page` returns re-establishes the invariant. */
  lemma CursorTracksPage(acc: seq<Tweet>, o: Outcome)
    requires o.Page? && WellShaped(o)
    ensures CursorTracks(acc + o.tweets, o.next)
  {
    if o.tweets != [] {
      assert Last(acc + o.tweets) == Last(o.tweets);
    }
  }

  /** The invariant holds after every prefix of the appended pages. */
  lemma {:induction false} PrefixCursorInvariant(fetch: Fetcher, pos: Cursor, acc: seq<Tweet>, limit: Option<int>,
                                                 oracle: seq<seq<Attempt>>, k: nat)
    requires forall c, a :: WellShaped(fetch(c, a))
    requires CursorTracks(acc, pos)
    requires 0 < k <= |UserPages(fetch, pos, acc, limit, oracle).pages|
    decreases |oracle|
    ensures var pages := UserPages(fetch, pos, acc, limit, oracle).pages;
      CursorTracks(acc + Flatten(pages[..k]), pages[k - 1].next)
  {
    UserPagesStep(fetch, pos, acc, limit, oracle);
    var o := fetch(pos, oracle[0]);
    var pages := UserPages(fetch, pos, acc, limit, oracle).pages;
    var p := PageRecord(pos, o.tweets, o.next);
    var collected := acc + o.tweets;
    var rest := if LimitReached(limit, |collected|) then []
        else UserPages(fetch, o.next, collected, limit, oracle[1..]).pages;
    assert pages == [p] + rest;
    CursorTracksPage(acc, o);
    FlattenConsPrefix(p, rest, k);
    if k == 1 {
      assert rest[..0] == [];
    } else {
      PrefixCursorInvariant(fetch, o.next, collected, limit, oracle[1..], k - 1);
      assert pages[k - 1] == rest[k - 2];
    }
  }
}
