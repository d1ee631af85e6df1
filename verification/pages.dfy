/**
  A page as a paginator consumed it: the cursor it was fetched with, the
  tweets it held and the cursor the fetch handed back. Both paginators are
  described by the list of pages they took in.
 */
module Pages {
  import opened Common
  import opened Cursors
  import opened Fetch

  datatype PageRecord = PageRecord(cursor: Cursor, tweets: seq<Tweet>, next: Cursor)

  /** All tweets of the pages, in page order; `FlattenIsConcat` relates it to `Concat`. */
  function Flatten(pages: seq<PageRecord>): seq<Tweet>
  {
    if pages == [] then [] else pages[0].tweets + Flatten(pages[1..])
  }

  /** The cursor in force after consuming `pages`, starting from `pos`. */
  function After(pos: Cursor, pages: seq<PageRecord>): Cursor
  {
    if pages == [] then pos else Last(pages).next
  }

  /**
    Consecutive pages are chained: the first is fetched at `pos`, every
    later one at the cursor the previous fetch handed back.
   */
  ghost predicate Chained(pos: Cursor, pages: seq<PageRecord>)
  {
    && (pages != [] ==> pages[0].cursor == pos)
    && forall i :: 0 <= i < |pages| - 1 ==> pages[i + 1].cursor == pages[i].next
  }

  lemma ChainedCons(pos: Cursor, p: PageRecord, rest: seq<PageRecord>)
    requires p.cursor == pos && Chained(p.next, rest)
    ensures Chained(pos, [p] + rest)
  {
    var pages := [p] + rest;
    forall i | 0 <= i < |pages| - 1
      ensures pages[i + 1].cursor == pages[i].next
    {
      if i > 0 {
        assert pages[i + 1] == rest[i] && pages[i] == rest[i - 1];
      }
    }
  }

  /** Every page is what the fetch returned at its cursor for its responses. */
  ghost predicate Fetched(fetch: Fetcher, pages: seq<PageRecord>, oracle: seq<seq<Attempt>>)
  {
    && |pages| <= |oracle|
    && forall i :: 0 <= i < |pages| ==> fetch(pages[i].cursor, oracle[i]) == Page(pages[i].tweets, pages[i].next)
  }

  /** No page but the first is fetched once the running count has reached the limit. */
  ghost predicate BelowLimitBefore(pages: seq<PageRecord>, limit: Option<int>, count: int)
  {
    forall i :: 1 <= i < |pages| ==> !LimitReached(limit, count + |Flatten(pages[..i])|)
  }

  lemma ChainedTail(pos: Cursor, pages: seq<PageRecord>)
    requires pages != [] && Chained(pos, pages)
    ensures Chained(pages[0].next, pages[1..])
  {
    var rest := pages[1..];
    forall i | 0 <= i < |rest| - 1
      ensures rest[i + 1].cursor == rest[i].next
    {
      assert rest[i + 1] == pages[i + 2] && rest[i] == pages[i + 1];
    }
  }

  lemma FetchedCons(fetch: Fetcher, p: PageRecord, rest: seq<PageRecord>, oracle: seq<seq<Attempt>>)
    requires oracle != [] && fetch(p.cursor, oracle[0]) == Page(p.tweets, p.next)
    requires Fetched(fetch, rest, oracle[1..])
    ensures Fetched(fetch, [p] + rest, oracle)
  {
    var pages := [p] + rest;
    forall i | 0 <= i < |pages|
      ensures fetch(pages[i].cursor, oracle[i]) == Page(pages[i].tweets, pages[i].next)
    {
      if i > 0 {
        assert pages[i] == rest[i - 1] && oracle[i] == oracle[1..][i - 1];
      }
    }
  }

  lemma FetchedTail(fetch: Fetcher, pages: seq<PageRecord>, oracle: seq<seq<Attempt>>)
    requires pages != [] && Fetched(fetch, pages, oracle)
    ensures Fetched(fetch, pages[1..], oracle[1..])
  {
    forall i | 0 <= i < |pages| - 1
      ensures fetch(pages[1..][i].cursor, oracle[1..][i]) == Page(pages[1..][i].tweets, pages[1..][i].next)
    {
      assert pages[1..][i] == pages[i + 1] && oracle[1..][i] == oracle[i + 1];
    }
  }

  /** Prepending a page fetched below the limit keeps the limit checks of the rest. */
  lemma BelowLimitCons(p: PageRecord, rest: seq<PageRecord>, limit: Option<int>, count: int)
    requires BelowLimitBefore(rest, limit, count + |p.tweets|)
    requires rest != [] ==> !LimitReached(limit, count + |p.tweets|)
    ensures BelowLimitBefore([p] + rest, limit, count)
  {
    var pages := [p] + rest;
    forall i | 1 <= i < |pages|
      ensures !LimitReached(limit, count + |Flatten(pages[..i])|)
    {
      FlattenConsPrefix(p, rest, i);
      if i == 1 {
        assert rest[..0] == [];
      }
    }
  }

  /** The tweet lists of the pages, in page order. */
  function TweetLists(pages: seq<PageRecord>): (ts: seq<seq<Tweet>>)
    ensures |ts| == |pages| && forall i :: 0 <= i < |pages| ==> ts[i] == pages[i].tweets
  {
    seq(|pages|, i requires 0 <= i < |pages| => pages[i].tweets)
  }

  /** `Flatten` is `Concat` of the pages' tweet lists. */
  lemma {:induction false} FlattenIsConcat(pages: seq<PageRecord>)
    ensures Flatten(pages) == Concat(TweetLists(pages))
  {
    if pages != [] {
      assert TweetLists(pages)[1..] == TweetLists(pages[1..]);
      FlattenIsConcat(pages[1..]);
    }
  }

  lemma FlattenAppend(pages: seq<PageRecord>, p: PageRecord)
    ensures Flatten(pages + [p]) == Flatten(pages) + p.tweets
  {
    FlattenIsConcat(pages + [p]);
    FlattenIsConcat(pages);
    assert TweetLists(pages + [p]) == TweetLists(pages) + [p.tweets];
    ConcatAppend(TweetLists(pages), p.tweets);
  }

  /** Splitting off the last page. */
  lemma FlattenLast(pages: seq<PageRecord>)
    requires pages != []
    ensures Flatten(pages) == Flatten(pages[..|pages| - 1]) + Last(pages).tweets
  {
    assert pages == pages[..|pages| - 1] + [Last(pages)];
    FlattenAppend(pages[..|pages| - 1], Last(pages));
  }

  /** The prefix of pages taken after a first page. */
  lemma FlattenConsPrefix(p: PageRecord, rest: seq<PageRecord>, i: nat)
    requires 1 <= i <= |rest| + 1
    ensures Flatten(([p] + rest)[..i]) == p.tweets + Flatten(rest[..i - 1])
  {
    assert ([p] + rest)[..i] == [p] + rest[..i - 1];
    assert ([p] + rest[..i - 1])[1..] == rest[..i - 1];
  }
}
