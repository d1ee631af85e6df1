/**
  `query_tweets_parallel`: the date range is cut into `poolsize` contiguous
  day ranges, each searched by `_query_tweets_wrapper` with the query
  narrowed by `since:` and `until:`, and the lists are concatenated in the
  order the workers finish. Dates are day numbers; how a day is written in
  the query is the parameter `dateText`. The boundaries are the exact
  values `begin + floor(i * days / pool)` that `np.linspace` approximates.
 */
module Parallel {
  import opened Common
  import opened Fetch
  import opened Search

  /** The requested pool size, lowered to the number of days when it exceeds it. */
  function PoolSize(poolsize: int, days: int): (p: int)
    ensures p <= poolsize && p <= days
    ensures p == poolsize || p == days
  {
    if poolsize > days then days else poolsize
  }

  /** Euclidean quotient and remainder are determined by the equation they satisfy. */
  lemma DivUnique(x: int, d: int, q: int, r: int)
    requires d > 0 && 0 <= r < d && x == q * d + r
    ensures x / d == q && x % d == r
  {
    var q', r' := x / d, x % d;
    assert x == q' * d + r';
    if q' > q {
      MulAtLeast(q' - q, d);
    } else if q' < q {
      MulAtLeast(q - q', d);
    }
  }

  lemma MulAtLeast(a: int, d: int)
    requires a >= 1 && d > 0
    ensures a * d >= d
  {
    assert a * d == (a - 1) * d + d;
  }

  /** Floor division of a sum gains at most one over the sum of the quotients. */
  lemma DivAdd(a: int, b: int, d: int)
    requires d > 0
    ensures b / d <= (a + b) / d - a / d <= b / d + 1
  {
    var qa, ra, qb, rb := a / d, a % d, b / d, b % d;
    assert a + b == (qa + qb) * d + (ra + rb);
    if ra + rb < d {
      DivUnique(a + b, d, qa + qb, ra + rb);
    } else {
      assert a + b == (qa + qb + 1) * d + (ra + rb - d);
      DivUnique(a + b, d, qa + qb + 1, ra + rb - d);
    }
  }

  /** The i-th date: `begin + floor(i * days / pool)`. */
  function Boundary(begin: int, days: int, pool: int, i: int): int
    requires pool >= 1
  {
    begin + (i * days) / pool
  }

  lemma BoundaryEnds(begin: int, days: int, pool: int)
    requires 1 <= pool
    ensures Boundary(begin, days, pool, 0) == begin
    ensures Boundary(begin, days, pool, pool) == begin + days
  {
    DivUnique(pool * days, pool, days, 0);
    DivUnique(0, pool, 0, 0);
  }

  lemma BoundaryStep(begin: int, days: int, pool: int, i: int)
    requires 1 <= pool
    ensures days / pool <= Boundary(begin, days, pool, i + 1) - Boundary(begin, days, pool, i) <= days / pool + 1
  {
    assert (i + 1) * days == i * days + days;
    DivAdd(i * days, days, pool);
  }

  lemma BoundaryIncreases(begin: int, days: int, pool: int, i: int, j: int)
    requires 1 <= pool <= days && i < j
    ensures Boundary(begin, days, pool, i) < Boundary(begin, days, pool, j)
  {
    assert j * days == i * days + (j - i) * days;
    DivAdd(i * days, (j - i) * days, pool);
    MulAtLeast(j - i, days);
    DivAdd(days, (j - i) * days - days, pool);
    DivAdd(0, (j - i) * days - days, pool);
    DivAdd(0, days, pool);
  }

  /**
    The `pool + 1` evenly spaced dates from `begin` to `begin + days`
    that the source computes with `np.linspace`: they start at `begin`, end at `begin + days`, strictly
    increase, and neighbouring dates are `days / pool` or one more apart.
   */
  function Boundaries(begin: int, days: int, pool: int): (b: seq<int>)
    requires 1 <= pool <= days
    ensures |b| == pool + 1
    ensures b[0] == begin && b[pool] == begin + days
    ensures forall i :: 0 <= i < pool ==> days / pool <= b[i + 1] - b[i] <= days / pool + 1
    ensures forall i, j :: 0 <= i < j <= pool ==> b[i] < b[j]
  {
    var b := seq(pool + 1, i requires 0 <= i <= pool => Boundary(begin, days, pool, i));
    BoundaryEnds(begin, days, pool);
    forall i | 0 <= i < pool
      ensures days / pool <= b[i + 1] - b[i] <= days / pool + 1
    {
      BoundaryStep(begin, days, pool, i);
    }
    forall i, j | 0 <= i < j <= pool
      ensures b[i] < b[j]
    {
      BoundaryIncreases(begin, days, pool, i, j);
    }
    b
  }

  /**
    The `(since, until)` pairs of neighbouring boundaries, in order: they
    run from the first boundary to the last, each starts where the previous
    one ends, and none is empty when the boundaries strictly increase.
   */
  function Ranges(b: seq<int>): (r: seq<(int, int)>)
    requires |b| >= 1
    ensures |r| == |b| - 1
    ensures forall i :: 0 <= i < |r| ==> r[i] == (b[i], b[i + 1])
    ensures |b| >= 2 ==> r[0].0 == b[0] && Last(r).1 == Last(b)
    ensures forall i :: 0 <= i < |r| - 1 ==> r[i].1 == r[i + 1].0
    ensures (forall i, j :: 0 <= i < j < |b| ==> b[i] < b[j]) ==> forall i :: 0 <= i < |r| ==> r[i].0 < r[i].1
  {
    seq(|b| - 1, i requires 0 <= i < |b| - 1 => (b[i], b[i + 1]))
  }

  /** The index of the range holding day `d`, by walking the boundaries. */
  function RangeOf(b: seq<int>, d: int): (i: nat)
    requires |b| >= 2 && b[0] <= d < Last(b)
    ensures i < |b| - 1 && b[i] <= d < b[i + 1]
    decreases |b|
  {
    if d < b[1] then 0 else 1 + RangeOf(b[1..], d)
  }

  /**
    Each worker's limit: one more than the limit divided by the pool size,
    rounded down, and no limit when the limit is falsy.
   */
  function LimitPerPool(limit: Option<int>, pool: int): (r: Option<int>)
    requires pool >= 1
    ensures r.Some? <==> LimitSet(limit)
    ensures r.Some? ==> pool * (r.value - 1) <= limit.value < pool * r.value
  {
    if LimitSet(limit) then
      var q := limit.value / pool;
      assert limit.value == q * pool + limit.value % pool;
      assert pool * (q + 1) == q * pool + pool;
      Some(q + 1)
    else None
  }

  /**
    A worker's query: the original query followed by a `since:` filter on
    the first day of its range and an `until:` filter on the day after it.
   */
  function SubQuery(query: string, range: (int, int), dateText: int -> string): (r: string)
    ensures |r| == |query| + 14 + |dateText(range.0)| + |dateText(range.1)|
    ensures r[..|query|] == query
    ensures r[|query|..|query| + 7] == " since:"
    ensures r[|query| + 7..|query| + 7 + |dateText(range.0)|] == dateText(range.0)
    ensures r[|r| - |dateText(range.1)| - 7..|r| - |dateText(range.1)|] == " until:"
    ensures r[|r| - |dateText(range.1)|..] == dateText(range.1)
  {
    query + " since:" + dateText(range.0) + " until:" + dateText(range.1)
  }

  /** Day `d` lies in the i-th range between boundaries, `until:` being exclusive. */
  predicate InRange(b: seq<int>, i: int, d: int)
    requires 0 <= i < |b| - 1
  {
    b[i] <= d < b[i + 1]
  }

  /** Day `d` lies in exactly one of the ranges between boundaries. */
  predicate InExactlyOne(b: seq<int>, d: int)
  {
    exists i :: 0 <= i < |b| - 1 && InRange(b, i, d)
      && forall j :: 0 <= j < |b| - 1 && InRange(b, j, d) ==> j == i
  }

  /**
    The ranges between boundaries `b` tile `[lo, hi)`: they run from `lo`
    to `hi`, none is empty, and every day of the period lies in exactly one.
   */
  predicate Tiles(b: seq<int>, lo: int, hi: int)
  {
    && |b| >= 2 && b[0] == lo && Last(b) == hi
    && (forall i :: 0 <= i < |b| - 1 ==> b[i] < b[i + 1])
    && forall d :: lo <= d < hi ==> InExactlyOne(b, d)
  }

  /**
    The ranges between strictly increasing boundaries tile the period from
    the first to the last: every day falls in exactly one of them, `until:`
    being exclusive.
   */
  lemma RangesTile(b: seq<int>)
    requires |b| >= 2 && forall i, j :: 0 <= i < j < |b| ==> b[i] < b[j]
    ensures Tiles(b, b[0], Last(b))
  {
    forall d | b[0] <= d < Last(b)
      ensures InExactlyOne(b, d)
    {
      var k := RangeOf(b, d);
      assert InRange(b, k, d);
      forall j | 0 <= j < |b| - 1 && InRange(b, j, d)
        ensures j == k
      {
        assert b[j] <= d < b[j + 1] && b[k] <= d < b[k + 1];
      }
    }
  }

  /** The workers' boundaries tile the period from `begin` up to `begin + days`. */
  lemma BoundariesTile(begin: int, days: int, pool: int)
    requires 1 <= pool <= days
    ensures Tiles(Boundaries(begin, days, pool), begin, begin + days)
  {
    RangesTile(Boundaries(begin, days, pool));
  }

  /** The responses of the i-th worker; a worker with none left is interrupted at once. */
  function OracleAt(oracles: seq<seq<seq<Attempt>>>, i: nat): seq<seq<Attempt>>
  {
    if i < |oracles| then oracles[i] else []
  }

  /**
    What each worker's `_query_tweets_wrapper` returns, in pool order.
    Worker i searches the query narrowed to the days from `b[i]` up to but
    not including `b[i + 1]`; these ranges are non-empty and every day of
    `[begin, begin + days)` lies in exactly one of them.
   */
  function WorkerResults(query: string, lang: string, limit: Option<int>, poolsize: int, begin: int, days: int,
                         dateText: int -> string, oracles: seq<seq<seq<Attempt>>>): (rs: seq<seq<Tweet>>)
    requires days >= 1 && poolsize >= 1
    ensures |rs| == PoolSize(poolsize, days)
    ensures var b := Boundaries(begin, days, |rs|);
      forall i :: 0 <= i < |rs| ==>
        rs[i] == QueryTweetsWrapper(SubQuery(query, (b[i], b[i + 1]), dateText), lang,
                                    LimitPerPool(limit, |rs|), OracleAt(oracles, i))
    ensures Tiles(Boundaries(begin, days, |rs|), begin, begin + days)
  {
    var pool := PoolSize(poolsize, days);
    var b := Boundaries(begin, days, pool);
    var ranges := Ranges(b);
    var perPool := LimitPerPool(limit, pool);
    BoundariesTile(begin, days, pool);
    seq(pool, i requires 0 <= i < pool =>
      QueryTweetsWrapper(SubQuery(query, ranges[i], dateText), lang, perPool, OracleAt(oracles, i)))
  }

  /** The workers' lists in the order they were delivered. */
  function Delivered(results: seq<seq<Tweet>>, order: seq<nat>): (d: seq<seq<Tweet>>)
    requires forall k :: 0 <= k < |order| ==> order[k] < |results|
    ensures |d| == |order| && forall k :: 0 <= k < |order| ==> d[k] == results[order[k]]
  {
    seq(|order|, k requires 0 <= k < |order| => results[order[k]])
  }

  /**
    Extending the list by each worker's tweets as it finishes: the
    delivered lists concatenated in delivery order.
   */
  function Merge(results: seq<seq<Tweet>>, order: seq<nat>): (r: seq<Tweet>)
    requires forall k :: 0 <= k < |order| ==> order[k] < |results|
    ensures r == Concat(Delivered(results, order))
  {
    if order == [] then []
    else
      assert Delivered(results, order)[1..] == Delivered(results, order[1..]);
      results[order[0]] + Merge(results, order[1..])
  }

  /** The indices `lo, lo + 1, ..., hi - 1`. */
  function Span(lo: nat, hi: nat): (r: seq<nat>)
    requires lo <= hi
    ensures |r| == hi - lo && forall k :: 0 <= k < |r| ==> r[k] == lo + k
  {
    seq(hi - lo, k requires 0 <= k < hi - lo => lo + k)
  }

  /** The worker indices `range(n)`. */
  function Range(n: nat): (r: seq<nat>)
    ensures |r| == n && forall i :: 0 <= i < n ==> r[i] == i
  {
    Span(0, n)
  }

  /**
    `query_tweets_parallel(query, lang, limit, poolsize, begindate,
    enddate)` with `days = (enddate - begindate).days`. `order` lists the
    workers in the order `imap_unordered` delivered them, each at most
    once; a prefix of all of them when the merge was interrupted. The
    result is the delivered workers' lists concatenated in delivery order,
    so an interrupt keeps everything delivered before it; with every worker
    delivered it is, as a multiset, all their tweets.
   */
  function QueryTweetsParallel(query: string, lang: string, limit: Option<int>, poolsize: int, begin: int, days: int,
                               dateText: int -> string, oracles: seq<seq<seq<Attempt>>>, order: seq<nat>)
    : (r: seq<Tweet>)
    requires days >= 1 && poolsize >= 1
    requires multiset(order) <= multiset(Range(PoolSize(poolsize, days)))
    ensures var rs := WorkerResults(query, lang, limit, poolsize, begin, days, dateText, oracles);
      && (forall k :: 0 <= k < |order| ==> order[k] < |rs|)
      && r == Concat(Delivered(rs, order))
      && multiset(r) <= multiset(Concat(rs))
      && (multiset(order) == multiset(Range(|rs|)) ==> multiset(r) == multiset(Concat(rs)))
  {
    var rs := WorkerResults(query, lang, limit, poolsize, begin, days, dateText, oracles);
    MergeUnordered(rs, order);
    Merge(rs, order)
  }

  /** All results, each delivered once, in any order or a partial order. */
  lemma MergeUnordered(results: seq<seq<Tweet>>, order: seq<nat>)
    requires multiset(order) <= multiset(Range(|results|))
    ensures forall k :: 0 <= k < |order| ==> order[k] < |results|
    ensures multiset(Merge(results, order)) <= multiset(Concat(results))
    ensures multiset(order) == multiset(Range(|results|)) ==>
      multiset(Merge(results, order)) == multiset(Concat(results))
  {
    forall k | 0 <= k < |order|
      ensures order[k] < |results|
    {
      assert order[k] in multiset(order);
      assert order[k] in multiset(Range(|results|));
    }
    var full := Range(|results|);
    MergeBag(results, order);
    MergeBag(results, full);
    MergeRangeFrom(results, 0);
    assert results[0..] == results;
    assert Merge(results, full) == Concat(results);
    BagMonotone(results, multiset(order), multiset(full));
  }

  /** The tweets of worker `k`, none for an index past the pool. */
  function Part(results: seq<seq<Tweet>>, k: nat): multiset<Tweet>
  {
    if k < |results| then multiset(results[k]) else multiset{}
  }

  /** The tweets of the results named by a multiset of indices, with multiplicity. */
  ghost function Bag(results: seq<seq<Tweet>>, m: multiset<nat>): multiset<Tweet>
    decreases |m|
  {
    if m == multiset{} then multiset{}
    else
      var k :| k in m;
      Part(results, k) + Bag(results, m - multiset{k})
  }

  /** `Bag` does not depend on which index it takes first. */
  lemma {:induction false} BagPick(results: seq<seq<Tweet>>, m: multiset<nat>, k: nat)
    requires k in m
    ensures Bag(results, m) == Part(results, k) + Bag(results, m - multiset{k})
    decreases |m|
  {
    var k' :| k' in m && Bag(results, m) == Part(results, k') + Bag(results, m - multiset{k'});
    if k' != k {
      var mk', mk := m - multiset{k'}, m - multiset{k};
      var both := mk' - multiset{k};
      calc {
        Bag(results, m);
        Part(results, k') + Bag(results, mk');
        { BagPick(results, mk', k); }
        Part(results, k') + (Part(results, k) + Bag(results, both));
        Part(results, k) + (Part(results, k') + Bag(results, both));
        { assert both == mk - multiset{k'};
          BagPick(results, mk, k'); }
        Part(results, k) + Bag(results, mk);
      }
    }
  }

  lemma {:induction false} MergeBag(results: seq<seq<Tweet>>, order: seq<nat>)
    requires forall k :: 0 <= k < |order| ==> order[k] < |results|
    ensures multiset(Merge(results, order)) == Bag(results, multiset(order))
  {
    if order != [] {
      assert order == [order[0]] + order[1..];
      assert multiset(order) - multiset{order[0]} == multiset(order[1..]);
      MergeBag(results, order[1..]);
      BagPick(results, multiset(order), order[0]);
    }
  }

  lemma {:induction false} BagMonotone(results: seq<seq<Tweet>>, m1: multiset<nat>, m2: multiset<nat>)
    requires m1 <= m2
    ensures Bag(results, m1) <= Bag(results, m2)
    decreases |m1|
  {
    if m1 != multiset{} {
      var k :| k in m1;
      BagPick(results, m1, k);
      BagPick(results, m2, k);
      BagMonotone(results, m1 - multiset{k}, m2 - multiset{k});
    } else {
      assert Bag(results, m1) == multiset{};
    }
  }

  /** Delivering the workers in pool order gives their lists concatenated. */
  lemma {:induction false} MergeRangeFrom(results: seq<seq<Tweet>>, i: nat)
    requires i <= |results|
    ensures Merge(results, Span(i, |results|)) == Concat(results[i..])
    decreases |results| - i
  {
    if i < |results| {
      MergeRangeFrom(results, i + 1);
      assert Span(i, |results|)[1..] == Span(i + 1, |results|);
      assert results[i..][1..] == results[i + 1..];
    }
  }

  lemma {:induction false} ConcatAtLeast(ss: seq<seq<Tweet>>, v: int)
    requires forall i :: 0 <= i < |ss| ==> |ss[i]| >= v
    ensures |Concat(ss)| >= |ss| * v
  {
    if ss != [] {
      ConcatAtLeast(ss[1..], v);
      assert |ss| * v == v + (|ss| - 1) * v;
    }
  }

  /**
    Every worker delivered, each with at least `v` tweets: the merged list
    holds at least `pool * v` of them, so more than any `limit` whose share
    `limit // pool + 1` is `v`.
   */
  lemma MergedAtLeast(results: seq<seq<Tweet>>, order: seq<nat>, v: int)
    requires multiset(order) == multiset(Range(|results|))
    requires forall i :: 0 <= i < |results| ==> |results[i]| >= v
    ensures forall k :: 0 <= k < |order| ==> order[k] < |results|
    ensures |Merge(results, order)| >= |results| * v
  {
    MergeUnordered(results, order);
    ConcatAtLeast(results, v);
    assert |Merge(results, order)| == |multiset(Merge(results, order))| == |multiset(Concat(results))|;
  }

  /**
    Counted in tweets: a partial delivery merges at most as many tweets as
    the workers returned, a complete one exactly as many.
   */
  lemma MergeLength(results: seq<seq<Tweet>>, order: seq<nat>)
    requires multiset(order) <= multiset(Range(|results|))
    ensures forall k :: 0 <= k < |order| ==> order[k] < |results|
    ensures |Merge(results, order)| <= |Concat(results)|
    ensures multiset(order) == multiset(Range(|results|)) ==> |Merge(results, order)| == |Concat(results)|
  {
    MergeUnordered(results, order);
    var merged, all := multiset(Merge(results, order)), multiset(Concat(results));
    assert all == merged + (all - merged);
    assert |Merge(results, order)| == |merged| <= |all| == |Concat(results)|;
  }

  /**
    With a limit set and every worker delivered, if each worker collected
    at least its share `limit // pool + 1`, the merged list holds more than
    `limit` tweets.
   */
  lemma ParallelExceedsLimit(query: string, lang: string, limit: Option<int>, poolsize: int, begin: int, days: int,
                             dateText: int -> string, oracles: seq<seq<seq<Attempt>>>, order: seq<nat>)
    requires days >= 1 && poolsize >= 1 && LimitSet(limit)
    requires multiset(order) == multiset(Range(PoolSize(poolsize, days)))
    requires var rs := WorkerResults(query, lang, limit, poolsize, begin, days, dateText, oracles);
      forall i :: 0 <= i < |rs| ==> |rs[i]| >= LimitPerPool(limit, |rs|).value
    ensures |QueryTweetsParallel(query, lang, limit, poolsize, begin, days, dateText, oracles, order)| > limit.value
  {
    var rs := WorkerResults(query, lang, limit, poolsize, begin, days, dateText, oracles);
    var v := LimitPerPool(limit, |rs|).value;
    MergedAtLeast(rs, order, v);
  }

  /** Ten days over five workers: boundaries every two days, and a limit of 25 gives 6 per worker. */
  lemma TenDaysFiveWorkers()
    ensures Boundaries(0, 10, PoolSize(5, 10)) == [0, 2, 4, 6, 8, 10]
    ensures Boundaries(0, 10, PoolSize(20, 10)) == [0, 1, 2, 3, 4, 5, 6, 7, 8, 9, 10]
    ensures LimitPerPool(Some(25), 5) == Some(6)
  {
    var b := Boundaries(0, 10, 5);
    assert b[1] == 2 && b[2] == 4 && b[3] == 6 && b[4] == 8;
    var c := Boundaries(0, 10, 10);
    assert c[1] == 1 && c[2] == 2 && c[3] == 3 && c[4] == 4 && c[5] == 5;
    assert c[6] == 6 && c[7] == 7 && c[8] == 8 && c[9] == 9;
  }
}
