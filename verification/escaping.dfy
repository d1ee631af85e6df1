/**
  The escaping `query_tweets` applies to its query before building URLs:
  three chained `str.replace` calls turning `' '`, `'#'` and `':'` into
  `%20`, `%23` and `%3A`. `EscapeEach` is an independent per-character
  reference definition; `EscapeQuery` is proved equal to it.
 */
module Escaping {

  /**
    Python's `s.replace(c, sub)` for a one-character pattern: every
    character of the result is either from `sub` or a character of `s`
    other than `c`, so no `c` is left unless `sub` brings it; a string
    without `c` is left as it is.
   */
  function Replace(s: string, c: char, sub: string): (r: string)
    ensures forall i :: 0 <= i < |r| ==> r[i] in sub || (r[i] != c && r[i] in s)
    ensures c !in sub ==> c !in r
    ensures c !in s ==> r == s
  {
    if s == [] then [] else (if s[0] == c then sub else [s[0]]) + Replace(s[1..], c, sub)
  }

  predicate Reserved(ch: char)
  {
    ch == ' ' || ch == '#' || ch == ':'
  }

  function EscapeChar(ch: char): string
  {
    if ch == ' ' then "%20" else if ch == '#' then "%23" else if ch == ':' then "%3A" else [ch]
  }

  /** Reference: every character escaped on its own, results concatenated. */
  function EscapeEach(s: string): string
  {
    if s == [] then [] else EscapeChar(s[0]) + EscapeEach(s[1..])
  }

  function ReservedCount(s: string): nat
  {
    if s == [] then 0 else (if Reserved(s[0]) then 1 else 0) + ReservedCount(s[1..])
  }

  /**
    The query with spaces, then `#`, then `:` replaced in turn by their
    percent-encodings: the result contains no reserved character, grows by exactly two
    characters per reserved one, and is the per-character escaping.
   */
  function EscapeQuery(query: string): (r: string)
    ensures r == EscapeEach(query)
    ensures forall i :: 0 <= i < |r| ==> !Reserved(r[i])
    ensures |r| == |query| + 2 * ReservedCount(query)
  {
    EscapeQueryIsPerCharacter(query);
    EscapeEachHasNoReserved(query);
    EscapeEachLength(query);
    Replace(Replace(Replace(query, ' ', "%20"), '#', "%23"), ':', "%3A")
  }

  lemma {:induction false} ReplaceAppend(a: string, b: string, c: char, sub: string)
    ensures Replace(a + b, c, sub) == Replace(a, c, sub) + Replace(b, c, sub)
  {
    if a == [] {
      assert a + b == b;
    } else {
      assert (a + b)[1..] == a[1..] + b;
      ReplaceAppend(a[1..], b, c, sub);
    }
  }

  lemma ReplaceSingle(ch: char, c: char, sub: string)
    ensures Replace([ch], c, sub) == if ch == c then sub else [ch]
  {
    assert [ch][1..] == [];
  }

  /** The three replacements escape a single character as `EscapeChar` does. */
  lemma EscapeOneChar(ch: char)
    ensures Replace(Replace(Replace([ch], ' ', "%20"), '#', "%23"), ':', "%3A") == EscapeChar(ch)
  {
    ReplaceSingle(ch, ' ', "%20");
    if ch != ' ' {
      ReplaceSingle(ch, '#', "%23");
      if ch != '#' {
        ReplaceSingle(ch, ':', "%3A");
      }
    }
  }

  lemma {:induction false} EscapeQueryIsPerCharacter(s: string)
    ensures Replace(Replace(Replace(s, ' ', "%20"), '#', "%23"), ':', "%3A") == EscapeEach(s)
  {
    if s != [] {
      var ch, rest := s[0], s[1..];
      assert s == [ch] + rest;
      var a := Replace([ch], ' ', "%20");
      var b := Replace(a, '#', "%23");
      ReplaceAppend([ch], rest, ' ', "%20");
      ReplaceAppend(a, Replace(rest, ' ', "%20"), '#', "%23");
      ReplaceAppend(b, Replace(Replace(rest, ' ', "%20"), '#', "%23"), ':', "%3A");
      EscapeOneChar(ch);
      EscapeQueryIsPerCharacter(rest);
    }
  }

  lemma {:induction false} EscapeEachHasNoReserved(s: string)
    ensures forall i :: 0 <= i < |EscapeEach(s)| ==> !Reserved(EscapeEach(s)[i])
  {
    if s != [] {
      EscapeEachHasNoReserved(s[1..]);
    }
  }

  lemma {:induction false} EscapeEachLength(s: string)
    ensures |EscapeEach(s)| == |s| + 2 * ReservedCount(s)
  {
    if s != [] {
      EscapeEachLength(s[1..]);
    }
  }

  /** Escaping distributes over concatenation. */
  lemma {:induction false} EscapeQueryAppend(a: string, b: string)
    ensures EscapeQuery(a + b) == EscapeQuery(a) + EscapeQuery(b)
  {
    if a == [] {
      assert a + b == b;
    } else {
      assert (a + b)[1..] == a[1..] + b;
      EscapeQueryAppend(a[1..], b);
    }
  }

  /** Every character other than the three reserved ones is left as it is. */
  lemma {:induction false} EscapeQueryKeepsPlainText(s: string)
    requires forall i :: 0 <= i < |s| ==> !Reserved(s[i])
    ensures EscapeQuery(s) == s
  {
    if s != [] {
      EscapeQueryKeepsPlainText(s[1..]);
    }
  }
}
