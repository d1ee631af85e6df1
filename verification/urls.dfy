/**
  URL template selection (`get_url`, `get_search_url`, `get_user_url`).
  The string formatting of the templates is not modelled; a `Url` records
  which of the four templates was chosen and the values filled into it.
 */
module Urls {
  import opened Cursors

  datatype Url =
    | SearchInit(query: string, lang: string)
    | SearchReload(query: string, lang: string, pos: string)
    | UserInit(user: string)
    | UserReload(user: string, pos: string)

  /** The reload template iff the cursor is truthy, with its text; both carry query and language. */
  function GetSearchUrl(query: string, lang: string, pos: Cursor): (r: Url)
    ensures r.SearchInit? || r.SearchReload?
    ensures r.SearchReload? <==> Truthy(pos)
    ensures r.query == query && r.lang == lang
    ensures r.SearchReload? ==> r.pos == pos.text
  {
    if Truthy(pos) then SearchReload(query, lang, pos.text) else SearchInit(query, lang)
  }

  /** The timeline reload template iff the cursor is truthy, with its text; both carry the user. */
  function GetUserUrl(user: string, pos: Cursor): (r: Url)
    ensures r.UserInit? || r.UserReload?
    ensures r.UserReload? <==> Truthy(pos)
    ensures r.user == user
    ensures r.UserReload? ==> r.pos == pos.text
  {
    if Truthy(pos) then UserReload(user, pos.text) else UserInit(user)
  }

  /**
    The template is fixed by `fromUser` and the truthiness of `pos` alone;
    a reload template carries the cursor text verbatim, and the user
    templates drop the language.
   */
  function GetUrl(query: string, lang: string, pos: Cursor, fromUser: bool): (r: Url)
    ensures r.UserReload? <==> fromUser && Truthy(pos)
    ensures r.UserInit? <==> fromUser && !Truthy(pos)
    ensures r.SearchReload? <==> !fromUser && Truthy(pos)
    ensures r.SearchInit? <==> !fromUser && !Truthy(pos)
    ensures (r.SearchReload? || r.UserReload?) ==> r.pos == pos.text
    ensures r.SearchInit? || r.SearchReload? ==> r.query == query && r.lang == lang
    ensures r.UserInit? || r.UserReload? ==> r.user == query
  {
    if fromUser then GetUserUrl(query, pos) else GetSearchUrl(query, lang, pos)
  }

  /** Two falsy cursors (`None` and `''`) select the same URL. */
  lemma FalsyCursorsShareUrl(query: string, lang: string, p: Cursor, q: Cursor, fromUser: bool)
    requires !Truthy(p) && !Truthy(q)
    ensures GetUrl(query, lang, p, fromUser) == GetUrl(query, lang, q, fromUser)
  {
  }
}
