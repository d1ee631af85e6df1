/**
  Shared vocabulary of the model of `twitterscraper/query.py`: the optional
  value standing in for Python's `None`, the scraped record, and the
  truthiness of the integer `limit` argument.
 */
module Common {

  /** Python's `None`-or-value. */
  datatype Option<+T> = None | Some(value: T)

  /**
    One scraped record. The parser that builds it is not part of this model;
    only the two fields the pagination logic reads are kept: the identifier
    (which becomes the next cursor) and the timestamp (which orders the
    user-timeline tail merge).
   */
  datatype Tweet = Tweet(id: nat, timestamp: int)

  function Last<T>(s: seq<T>): T
    requires |s| > 0
  {
    s[|s| - 1]
  }

  /** Concatenation of a sequence of lists, in order. */
  function Concat<T>(ss: seq<seq<T>>): seq<T>
  {
    if ss == [] then [] else ss[0] + Concat(ss[1..])
  }

  lemma {:induction false} ConcatAppend<T>(ss: seq<seq<T>>, s: seq<T>)
    ensures Concat(ss + [s]) == Concat(ss) + s
  {
    if ss == [] {
      assert ss + [s] == [s];
    } else {
      assert (ss + [s])[1..] == ss[1..] + [s];
      ConcatAppend(ss[1..], s);
    }
  }

  /** Python's `if limit`: `None` and `0` are both false. */
  predicate LimitSet(limit: Option<int>)
  {
    limit.Some? && limit.value != 0
  }

  /** The loop guard `limit and count >= limit` shared by both paginators. */
  predicate LimitReached(limit: Option<int>, count: int)
  {
    LimitSet(limit) && count >= limit.value
  }
}
