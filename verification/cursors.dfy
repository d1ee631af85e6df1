/**
  The continuation cursor `pos` of `twitterscraper/query.py`. It is `None`
  on the first page, the id of the last tweet of a page after a successful
  fetch, or whatever `min_position` a JSON envelope reported after an empty
  one. The source tests it two ways: by truthiness (`if pos`, choosing the
  URL) and by identity with `None` (`pos is None`, choosing how to read the
  body). The user timeline also converts it with `int()`.
 */
module Cursors {
  import opened Common

  datatype Cursor = Null | Token(text: string)

  /** Python truthiness of the cursor: `None` and `''` are false. */
  predicate Truthy(c: Cursor)
  {
    c.Token? && c.text != []
  }

  predicate IsDigit(ch: char)
  {
    '0' <= ch <= '9'
  }

  predicate AllDigits(s: string)
  {
    forall i :: 0 <= i < |s| ==> IsDigit(s[i])
  }

  function DigitChar(d: nat): (ch: char)
    requires d < 10
    ensures IsDigit(ch)
  {
    (48 + d) as char
  }

  function DigitValue(ch: char): (d: nat)
    requires IsDigit(ch)
    ensures d < 10
  {
    ch as int - 48
  }

  /** Decimal rendering of a tweet id, most significant digit first. */
  function DecimalText(n: nat): (s: string)
    ensures s != [] && AllDigits(s)
  {
    if n < 10 then [DigitChar(n)] else DecimalText(n / 10) + [DigitChar(n % 10)]
  }

  /** The value of a non-empty digit string, read most significant digit first. */
  function DigitsValue(s: string): nat
    requires AllDigits(s)
  {
    if s == [] then 0 else DigitsValue(s[..|s| - 1]) * 10 + DigitValue(s[|s| - 1])
  }

  /**
    Python's `int(text)` on the strings this model produces: an optional
    sign followed by at least one ASCII digit. `None` stands for the
    `ValueError` that `int()` raises on anything else.
   */
  function ParseInt(s: string): (r: Option<int>)
    ensures r.Some? ==> s != []
    ensures s != [] && AllDigits(s) ==> r == Some(DigitsValue(s))
  {
    if s == [] then None
    else if AllDigits(s) then Some(DigitsValue(s))
    else if (s[0] == '-' || s[0] == '+') && |s| > 1 && AllDigits(s[1..]) then
      var v: int := DigitsValue(s[1..]);
      Some(if s[0] == '-' then -v else v)
    else None
  }

  /** `int(pos)`: `None` for a `None` cursor (a `TypeError`) or a non-numeric one. */
  function IntOf(c: Cursor): Option<int>
  {
    match c
    case Null => None
    case Token(t) => ParseInt(t)
  }

  /** The cursor `tweets[-1].id` that a successful page fetch hands back. */
  function IdCursor(t: Tweet): Cursor
  {
    Token(DecimalText(t.id))
  }

  lemma {:induction false} DigitsValueOfDecimal(n: nat)
    ensures DigitsValue(DecimalText(n)) == n
  {
    if n >= 10 {
      var s := DecimalText(n);
      assert s[..|s| - 1] == DecimalText(n / 10);
      DigitsValueOfDecimal(n / 10);
    }
  }

  /** Reading back a rendered id gives the id: `int(str(n)) == n`. */
  lemma IntOfIdCursor(t: Tweet)
    ensures Truthy(IdCursor(t))
    ensures IntOf(IdCursor(t)) == Some(t.id)
  {
    DigitsValueOfDecimal(t.id);
  }
}
