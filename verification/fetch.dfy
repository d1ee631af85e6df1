/**
  The retrying page fetch `_request_page` and the retrying profile fetch
  `_request_user`. The network is a finite sequence of attempt outcomes,
  one per HTTP request; a sequence that runs out before the loop is done
  stands for a `KeyboardInterrupt`, which the source does not catch here
  and so escapes the call (`Raised`).
 */
module Fetch {
  import opened Common
  import opened Cursors
  import opened Urls

  /** The `retry=10` default every caller in the source relies on. */
  const DefaultRetry: nat := 10

  /** What `json.loads(response.text)` followed by `['items_html']` yields. */
  datatype Envelope = NotJson | Json(items: seq<Tweet>, minPosition: Cursor)

  /**
    One HTTP request: either `requests.get` raised, or a body came back.
    `page` is what the tweet parser reads from the body taken as HTML;
    `envelope` is what the body gives when read as a JSON envelope. Which
    reading applies depends on the cursor, not on the response.
   */
  datatype Attempt = TransportError | Response(page: seq<Tweet>, envelope: Envelope)

  /** The local `response_json`: never assigned, `None`, or a parsed envelope. */
  datatype JsonSlot = Unbound | NullJson | Bound(minPosition: Cursor)

  datatype State = State(pos: Cursor, json: JsonSlot)

  datatype StepResult = Again(next: State) | Return(tweets: seq<Tweet>) | Abort

  /** The value of a `_request_page` call: `(tweets, pos)`, or an exception. */
  datatype Outcome = Page(tweets: seq<Tweet>, next: Cursor) | Raised

  /**
    A run of the retry loop: its outcome, the cursor each attempt started
    from and the URL each attempt requested.
   */
  datatype FetchRun = FetchRun(outcome: Outcome, tried: seq<Cursor>, urls: seq<Url>)

  /** The tweets one attempt parses, given the cursor it starts from. */
  function Parsed(pos: Cursor, a: Attempt): seq<Tweet>
  {
    match a
    case TransportError => []
    case Response(page, env) =>
      if pos.Null? then page
      else match env
        case NotJson => []
        case Json(items, _) => items
  }

  /**
    Where the cursor goes after an attempt that parsed nothing, stated
    without `response_json`: a transport error and a malformed envelope
    keep it, the first-page branch keeps it at `None`, an envelope moves it
    to its `min_position`.
   */
  function NextPos(pos: Cursor, a: Attempt): (r: Cursor)
    ensures pos.Null? ==> r.Null?
    ensures r != pos ==> a.Response? && a.envelope.Json? && r == a.envelope.minPosition
    ensures !pos.Null? && a.Response? && a.envelope.Json? ==> r == a.envelope.minPosition
  {
    match a
    case TransportError => pos
    case Response(_, env) =>
      if pos.Null? then Null
      else match env
        case NotJson => pos
        case Json(_, mp) => mp
  }

  /**
    What ties `response_json` to `pos` between attempts: once an envelope
    has been read, `pos` is its `min_position`; once the first-page branch
    has run, `pos` is `None`.
   */
  ghost predicate Consistent(s: State)
  {
    && (s.json.Bound? ==> s.pos == s.json.minPosition)
    && (s.json.NullJson? ==> s.pos.Null?)
  }

  /**
    One pass of the loop body. A malformed envelope reuses the previous
    attempt's `response_json`; when there is none the read of
    `response_json['min_position']` raises. Because of `Consistent`, the
    reused value is always the current cursor.
   */
  function Step(s: State, a: Attempt): (r: StepResult)
    requires Consistent(s)
    ensures r.Again? ==> Consistent(r.next) && Parsed(s.pos, a) == [] && r.next.pos == NextPos(s.pos, a)
    ensures r.Again? ==> (r.next.json.Unbound? <==> s.json.Unbound? && a.TransportError?)
    ensures r.Return? <==> Parsed(s.pos, a) != []
    ensures r.Return? ==> r.tweets == Parsed(s.pos, a)
    ensures r.Abort? <==> a.Response? && !s.pos.Null? && a.envelope.NotJson? && s.json.Unbound?
  {
    match a
    case TransportError => Again(s)
    case Response(page, env) =>
      var json := if s.pos.Null? then NullJson else (match env case NotJson => s.json case Json(_, mp) => Bound(mp));
      var tweets := if s.pos.Null? then page else (match env case NotJson => [] case Json(items, _) => items);
      if tweets != [] then Return(tweets)
      else match json
        case Unbound => Abort
        case NullJson => Again(State(Null, json))
        case Bound(mp) => Again(State(mp, json))
  }

  predicate AllTransportErrors(attempts: seq<Attempt>)
  {
    forall i :: 0 <= i < |attempts| ==> attempts[i].TransportError?
  }

  /** True of an attempt that read a malformed body in the continuation branch. */
  predicate MalformedContinuation(pos: Cursor, a: Attempt)
  {
    a.Response? && !pos.Null? && a.envelope.NotJson?
  }

  /**
    The `for i in range(retry)` loop with `left` iterations to go. It makes
    at most `left` requests, each to the URL its cursor selects, the first
    from the cursor it was given; it ends in `([], None)` only after all
    `left` attempts, and a non-empty page comes back with the id of its last
    tweet as the next cursor.
   */
  function Attempts(query: string, lang: string, fromUser: bool, s: State, left: nat,
      attempts: seq<Attempt>): (r: FetchRun)
    requires Consistent(s)
    decreases left
    ensures |r.tried| <= left && |r.tried| <= |attempts| && |r.urls| == |r.tried|
    ensures |r.tried| > 0 ==> r.tried[0] == s.pos
    ensures forall i :: 0 <= i < |r.tried| ==> r.urls[i] == GetUrl(query, lang, r.tried[i], fromUser)
    ensures || (r.outcome == Page([], Null) && |r.tried| == left)
            || r.outcome.Raised?
            || (r.outcome.tweets != [] && r.outcome.next == IdCursor(Last(r.outcome.tweets)))
  {
    if left == 0 then FetchRun(Page([], Null), [], [])
    else if attempts == [] then FetchRun(Raised, [], [])
    else
      var url := GetUrl(query, lang, s.pos, fromUser);
      match Step(s, attempts[0])
      case Return(tweets) => FetchRun(Page(tweets, IdCursor(Last(tweets))), [s.pos], [url])
      case Abort => FetchRun(Raised, [s.pos], [url])
      case Again(next) =>
        var rest := Attempts(query, lang, fromUser, next, left - 1, attempts[1..]);
        FetchRun(rest.outcome, [s.pos] + rest.tried, [url] + rest.urls)
  }

  /**
    Between attempts: every attempt before the last one parsed nothing, and
    the cursor of the next attempt is `NextPos` of the previous one, so a
    transport error or a malformed envelope keeps the cursor and an empty
    envelope moves it to its `min_position`.
   */
  lemma {:induction false} AttemptsTrace(query: string, lang: string, fromUser: bool, s: State, left: nat,
      attempts: seq<Attempt>)
    requires Consistent(s)
    decreases left
    ensures var r := Attempts(query, lang, fromUser, s, left, attempts);
      forall i :: 0 <= i < |r.tried| - 1 ==>
        Parsed(r.tried[i], attempts[i]) == [] && r.tried[i + 1] == NextPos(r.tried[i], attempts[i])
  {
    if left > 0 && attempts != [] {
      match Step(s, attempts[0])
      case Return(_) =>
      case Abort =>
      case Again(next) =>
        AttemptsTrace(query, lang, fromUser, next, left - 1, attempts[1..]);
        var rest := Attempts(query, lang, fromUser, next, left - 1, attempts[1..]);
        var r := Attempts(query, lang, fromUser, s, left, attempts);
        assert r.tried == [s.pos] + rest.tried;
        forall i | 0 <= i < |r.tried| - 1
          ensures Parsed(r.tried[i], attempts[i]) == [] && r.tried[i + 1] == NextPos(r.tried[i], attempts[i])
        {
          if i > 0 {
            assert r.tried[i] == rest.tried[i - 1] && attempts[i] == attempts[1..][i - 1];
          }
        }
    }
  }

  /**
    What the last attempt parsed: a returned page is exactly that parse;
    `([], None)` means the last of the `left` attempts parsed nothing too.
   */
  lemma {:induction false} AttemptsResult(query: string, lang: string, fromUser: bool, s: State, left: nat,
      attempts: seq<Attempt>)
    requires Consistent(s)
    decreases left
    ensures ResultWhy(left, attempts, Attempts(query, lang, fromUser, s, left, attempts))
  {
    if left > 0 && attempts != [] {
      match Step(s, attempts[0])
      case Return(_) =>
      case Abort =>
      case Again(next) =>
        AttemptsResult(query, lang, fromUser, next, left - 1, attempts[1..]);
        var rest := Attempts(query, lang, fromUser, next, left - 1, attempts[1..]);
        ResultWhyCons(left, attempts, s.pos, rest, Attempts(query, lang, fromUser, s, left, attempts));
    }
  }

  /**
    What the last attempt of a loop parsed: a returned page is exactly that
    parse, and `([], None)` after `left` attempts means the last of them
    parsed nothing too.
   */
  ghost predicate ResultWhy(left: nat, attempts: seq<Attempt>, r: FetchRun)
  {
    && (r.outcome.Page? && r.outcome.tweets != [] ==>
          0 < |r.tried| <= |attempts| && r.outcome.tweets == Parsed(Last(r.tried), attempts[|r.tried| - 1]))
    && (r.outcome.Page? && r.outcome.tweets == [] && left > 0 ==>
          |r.tried| == left <= |attempts| && Parsed(Last(r.tried), attempts[left - 1]) == [])
  }

  lemma ResultWhyCons(left: nat, attempts: seq<Attempt>, pos: Cursor, rest: FetchRun, r: FetchRun)
    requires left > 0 && attempts != [] && |rest.tried| <= |attempts| - 1
    requires rest.outcome.Page? && rest.outcome.tweets == [] ==> |rest.tried| == left - 1
    requires ResultWhy(left - 1, attempts[1..], rest)
    requires Parsed(pos, attempts[0]) == []
    requires r.outcome == rest.outcome && r.tried == [pos] + rest.tried
    ensures ResultWhy(left, attempts, r)
  {
    if |rest.tried| > 0 {
      assert Last(r.tried) == Last(rest.tried);
      assert attempts[|r.tried| - 1] == attempts[1..][|rest.tried| - 1];
    }
  }

  /**
    An exception escapes only when the responses run out (an interrupt) or
    when the response is a malformed envelope read before any envelope of
    this call, which the source reaches only after transport errors.
   */
  lemma {:induction false} AttemptsRaised(query: string, lang: string, fromUser: bool, s: State, left: nat,
      attempts: seq<Attempt>)
    requires Consistent(s)
    decreases left
    ensures RaisedWhy(s.json, left, attempts, Attempts(query, lang, fromUser, s, left, attempts))
  {
    if left > 0 && attempts != [] {
      match Step(s, attempts[0])
      case Return(_) =>
      case Abort =>
        assert attempts[..0] == [];
      case Again(next) =>
        AttemptsRaised(query, lang, fromUser, next, left - 1, attempts[1..]);
        var rest := Attempts(query, lang, fromUser, next, left - 1, attempts[1..]);
        RaisedWhyCons(s.json, next.json, left, attempts, s.pos, rest,
            Attempts(query, lang, fromUser, s, left, attempts));
    }
  }

  /**
    Why an attempt loop raised, when it did: the responses ran out before
    `left` attempts, or the loop met a malformed continuation envelope with
    no `response_json` read yet, after nothing but transport errors.
   */
  ghost predicate RaisedWhy(json: JsonSlot, left: nat, attempts: seq<Attempt>, r: FetchRun)
  {
    r.outcome.Raised? ==>
      || |r.tried| == |attempts| < left
      || (&& json.Unbound?
          && 0 < |r.tried| <= |attempts|
          && MalformedContinuation(Last(r.tried), attempts[|r.tried| - 1])
          && AllTransportErrors(attempts[..|r.tried| - 1]))
  }

  lemma RaisedWhyCons(json: JsonSlot, nextJson: JsonSlot, left: nat, attempts: seq<Attempt>, pos: Cursor,
                      rest: FetchRun, r: FetchRun)
    requires left > 0 && attempts != [] && |rest.tried| <= |attempts| - 1
    requires nextJson.Unbound? <==> json.Unbound? && attempts[0].TransportError?
    requires RaisedWhy(nextJson, left - 1, attempts[1..], rest)
    requires r.outcome == rest.outcome && r.tried == [pos] + rest.tried
    ensures RaisedWhy(json, left, attempts, r)
  {
    if r.outcome.Raised? && !(|r.tried| == |attempts| < left) {
      var n := |rest.tried|;
      assert Last(r.tried) == Last(rest.tried);
      assert attempts[|r.tried| - 1] == attempts[1..][n - 1];
      assert attempts[..|r.tried| - 1] == [attempts[0]] + attempts[1..][..n - 1];
    }
  }

  /**
    `_request_page(query, lang, pos, retry, from_user)`: at most `retry`
    requests; the result is `([], None)` (only after all `retry` attempts
    parsed nothing), or a non-empty first successful parse paired with the
    id of its last tweet, or an escaping exception, which needs the
    responses to run out or the call's first response to be a malformed
    envelope after nothing but transport errors.
   */
  function RequestPage(query: string, lang: string, pos: Cursor, retry: nat, fromUser: bool,
      attempts: seq<Attempt>): (r: FetchRun)
    ensures |r.tried| <= retry && |r.tried| <= |attempts| && |r.urls| == |r.tried|
    ensures |r.tried| > 0 ==> r.tried[0] == pos && r.urls[0] == GetUrl(query, lang, pos, fromUser)
    ensures || (r.outcome == Page([], Null) && |r.tried| == retry)
            || r.outcome.Raised?
            || (r.outcome.tweets != [] && r.outcome.next == IdCursor(Last(r.outcome.tweets)))
    ensures r.outcome.Raised? ==>
      || |r.tried| == |attempts| < retry
      || (&& |r.tried| > 0
          && MalformedContinuation(Last(r.tried), attempts[|r.tried| - 1])
          && AllTransportErrors(attempts[..|r.tried| - 1]))
  {
    AttemptsRaised(query, lang, fromUser, State(pos, Unbound), retry, attempts);
    Attempts(query, lang, fromUser, State(pos, Unbound), retry, attempts)
  }

  /**
    The first non-empty parse wins: every attempt before the last parsed
    nothing, the cursor moved between attempts as `NextPos` says, and a
    returned page is the last attempt's parse.
   */
  lemma RequestPageFirstSuccess(query: string, lang: string, pos: Cursor, retry: nat, fromUser: bool,
      attempts: seq<Attempt>)
    ensures var r := RequestPage(query, lang, pos, retry, fromUser, attempts);
      && (forall i :: 0 <= i < |r.tried| - 1 ==>
            Parsed(r.tried[i], attempts[i]) == [] && r.tried[i + 1] == NextPos(r.tried[i], attempts[i]))
      && (r.outcome.Page? && r.outcome.tweets != [] ==>
            r.outcome.tweets == Parsed(Last(r.tried), attempts[|r.tried| - 1]))
      && (r.outcome.Page? && r.outcome.tweets == [] ==>
            forall i :: 0 <= i < retry ==> Parsed(r.tried[i], attempts[i]) == [])
  {
    AttemptsTrace(query, lang, fromUser, State(pos, Unbound), retry, attempts);
    AttemptsResult(query, lang, fromUser, State(pos, Unbound), retry, attempts);
  }

  /** The outcome of one page fetch with the default retry budget. */
  function PageFetch(query: string, lang: string, pos: Cursor, fromUser: bool, attempts: seq<Attempt>): (o: Outcome)
    ensures WellShaped(o)
  {
    RequestPage(query, lang, pos, DefaultRetry, fromUser, attempts).outcome
  }

  predicate NonEmpty(o: Outcome)
  {
    o.Page? && o.tweets != []
  }

  /** The two results `_request_page` can return, besides raising. */
  predicate WellShaped(o: Outcome)
  {
    o.Page? ==> (o.tweets == [] && o.next == Null) || (o.tweets != [] && o.next == IdCursor(Last(o.tweets)))
  }

  /** One page fetch as the paginators see it: cursor and responses in, outcome out. */
  type Fetcher = (Cursor, seq<Attempt>) -> Outcome

  /** `_request_page` with its default retry budget, for a fixed query and mode. */
  function PageFetcher(query: string, lang: string, fromUser: bool): Fetcher
  {
    (pos: Cursor, attempts: seq<Attempt>) => PageFetch(query, lang, pos, fromUser, attempts)
  }

  lemma PageFetcherWellShaped(query: string, lang: string, fromUser: bool, pos: Cursor, attempts: seq<Attempt>)
    ensures WellShaped(PageFetcher(query, lang, fromUser)(pos, attempts))
  {
  }

  /**
    A network that always fails: exactly `retry` requests, all to the same
    URL, then `([], None)`.
   */
  lemma {:induction false} AlwaysFailingTransport(query: string, lang: string, pos: Cursor, retry: nat,
      fromUser: bool, attempts: seq<Attempt>)
    requires retry <= |attempts| && AllTransportErrors(attempts)
    ensures var r := RequestPage(query, lang, pos, retry, fromUser, attempts);
      && r.outcome == Page([], Null)
      && |r.urls| == retry
      && forall i :: 0 <= i < retry ==> r.urls[i] == GetUrl(query, lang, pos, fromUser)
  {
    AlwaysFailingFrom(query, lang, fromUser, State(pos, Unbound), retry, attempts);
  }

  lemma {:induction false} AlwaysFailingFrom(query: string, lang: string, fromUser: bool, s: State, left: nat,
      attempts: seq<Attempt>)
    requires Consistent(s)
    requires left <= |attempts| && AllTransportErrors(attempts)
    ensures var r := Attempts(query, lang, fromUser, s, left, attempts);
      && r.outcome == Page([], Null)
      && |r.urls| == left
      && forall i :: 0 <= i < left ==> r.tried[i] == s.pos
  {
    if left > 0 {
      assert attempts[0].TransportError?;
      AlwaysFailingFrom(query, lang, fromUser, s, left - 1, attempts[1..]);
    }
  }

  /**
    The stall rule cannot loop: an upstream that answers every request with
    an empty envelope repeating the same `min_position` is asked exactly
    `retry` times, always at that position.
   */
  lemma {:induction false} RepeatedStallEnds(query: string, lang: string, mp: Cursor, retry: nat, fromUser: bool,
      attempts: seq<Attempt>)
    requires !mp.Null? && retry <= |attempts|
    requires forall i :: 0 <= i < |attempts| ==> attempts[i] == Response([], Json([], mp))
    ensures var r := RequestPage(query, lang, mp, retry, fromUser, attempts);
      r.outcome == Page([], Null) && |r.tried| == retry && forall i :: 0 <= i < retry ==> r.tried[i] == mp
  {
    RepeatedStallFrom(query, lang, mp, State(mp, Unbound), retry, fromUser, attempts);
  }

  lemma {:induction false} RepeatedStallFrom(query: string, lang: string, mp: Cursor, s: State, left: nat,
      fromUser: bool, attempts: seq<Attempt>)
    requires !mp.Null? && left <= |attempts| && s.pos == mp && (s.json.Unbound? || s.json == Bound(mp))
    requires forall i :: 0 <= i < |attempts| ==> attempts[i] == Response([], Json([], mp))
    ensures var r := Attempts(query, lang, fromUser, s, left, attempts);
      r.outcome == Page([], Null) && |r.tried| == left && forall i :: 0 <= i < left ==> r.tried[i] == mp
    decreases left
  {
    if left > 0 {
      assert Step(s, attempts[0]) == Again(State(mp, Bound(mp)));
      RepeatedStallFrom(query, lang, mp, State(mp, Bound(mp)), left - 1, fromUser, attempts[1..]);
    }
  }

  /**
    A cursor that is falsy but not `None` (an empty `min_position`): the
    request goes to the first-page URL, yet the body is read as a JSON
    envelope, so an HTML first page parses to nothing.
   */
  lemma FalsyCursorReadsEnvelope(query: string, lang: string, fromUser: bool, page: seq<Tweet>, attempts: seq<Attempt>)
    requires |attempts| > 0 && attempts[0] == Response(page, NotJson)
    ensures var r := RequestPage(query, lang, Token(""), 1, fromUser, attempts);
      && r.urls == [GetUrl(query, lang, Null, fromUser)]
      && r.outcome.Raised?
  {
    assert Step(State(Token(""), Unbound), attempts[0]) == Abort;
  }

  datatype UserAttempt<U> = UserTransportError | UserResponse(info: U)

  datatype UserOutcome<U> = Found(info: U) | GaveUp | UserInterrupted

  /**
    `_request_user(url, retry)`: the first response within the first
    `retry` requests is parsed and returned; `None` after `retry` transport
    errors; an interrupt when the responses run out first.
   */
  function RequestUser<U(==)>(retry: nat, attempts: seq<UserAttempt<U>>): (r: UserOutcome<U>)
    decreases retry
    ensures r.GaveUp? <==> retry <= |attempts| && forall i :: 0 <= i < retry ==> attempts[i].UserTransportError?
    ensures r.UserInterrupted? <==>
        |attempts| < retry && forall i :: 0 <= i < |attempts| ==> attempts[i].UserTransportError?
    ensures r.Found? ==> exists k :: && 0 <= k < retry && k < |attempts|
                                     && attempts[k] == UserResponse(r.info)
                                     && forall i :: 0 <= i < k ==> attempts[i].UserTransportError?
  {
    if retry == 0 then GaveUp
    else if attempts == [] then UserInterrupted
    else match attempts[0]
      case UserResponse(info) => Found(info)
      case UserTransportError =>
        var r := RequestUser(retry - 1, attempts[1..]);
        if r.Found? then
          var k :| && 0 <= k < retry - 1 && k < |attempts| - 1
                   && attempts[1..][k] == UserResponse(r.info)
                   && forall i :: 0 <= i < k ==> attempts[1..][i].UserTransportError?;
          assert attempts[k + 1] == UserResponse(r.info);
          r
        else r
  }

  /**
    `query_user(user)`: the profile from the first response, or `None`
    when the retries are exhausted or the call is interrupted. Every
    request goes to the user's first-page URL.
   */
  function QueryUser<U(==)>(user: string, attempts: seq<UserAttempt<U>>): (r: (Url, Option<U>))
    ensures r.0 == UserInit(user)
    ensures r.1.None? <==> forall i :: 0 <= i < |attempts| && i < DefaultRetry ==> attempts[i].UserTransportError?
    ensures r.1.Some? ==> exists k :: && 0 <= k < DefaultRetry && k < |attempts|
                                     && attempts[k] == UserResponse(r.1.value)
                                     && forall i :: 0 <= i < k ==> attempts[i].UserTransportError?
  {
    var url := GetUserUrl(user, Null);
    match RequestUser(DefaultRetry, attempts)
    case Found(info) => (url, Some(info))
    case _ => (url, None)
  }
}
