/** The query a handler sees: that of the URL joined with posted data. */
module PostData {
  import opened Option
  import opened CString
  import opened RequestHead

  /** A C string ends at its first NUL. */
  function CStr(s: seq<char>): seq<char> {
    if s == [] || s[0] == '\0' then [] else [s[0]] + CStr(s[1..])
  }

  lemma {:induction false} CStrNulFree(s: seq<char>)
    requires NulFree(s)
    ensures CStr(s) == s
  {
    if s != [] { CStrNulFree(s[1..]); }
  }

  lemma {:induction false} CStrIs(s: seq<char>)
    ensures CStr(s) <= s && NulFree(CStr(s)) && (|CStr(s)| < |s| ==> s[|CStr(s)|] == '\0')
  {
    if s != [] && s[0] != '\0' {
      CStrIs(s[1..]);
      assert s == [s[0]] + s[1..];
    }
  }

  /** The query after one portion of posted text. `first` means no posted data has been
      appended yet, so what is there came with the URL. */
  function Append(query: Option<seq<char>>, first: bool, text: seq<char>): Option<seq<char>> {
    match query
    case None => Some(CStr(text))
    case Some(q) =>
      if q != [] && first then Some(q + ['&'] + CStr(text)) else Some(q + CStr(text))
  }

  /** The query a handler should see: the URL's own, then the body. */
  function FullQuery(url: Option<seq<char>>, body: seq<char>): Option<seq<char>> {
    if body == [] then url
    else if url.None? || url.value == [] then Some(body)
    else Some(url.value + ['&'] + body)
  }

  /** Appending in portions is the same as appending at once. */
  lemma AppendPortion(url: Option<seq<char>>, body: seq<char>, text: seq<char>)
    requires NulFree(text) && text != []
    ensures Append(FullQuery(url, body), body == [], text) == FullQuery(url, body + text)
  {
    CStrNulFree(text);
    if body == [] {
      assert body + text == text;
      if url.Some? && url.value == [] { assert [] + text == text; }
    } else if url.Some? && url.value != [] {
      assert (url.value + ['&'] + body) + text == url.value + ['&'] + (body + text);
    }
  }

  /** The query after a POST without a content length: of several posted lines only the last is
      kept, and only a single one is joined to the URL's query. */
  function PostQuery(url: Option<seq<char>>, posted: seq<Line>): Option<seq<char>> {
    if posted == [] then url
    else if |posted| == 1 && url.Some? && url.value != [] then Some(url.value + ['&'] + CStr(posted[0]))
    else Some(CStr(posted[|posted| - 1]))
  }

  lemma PostQueryMore(url: Option<seq<char>>, posted: seq<Line>, text: Line)
    ensures PostQuery(url, posted + [text])
         == var q := PostQuery(url, posted);
            if q.Some? && q.value != [] && posted == [] then Some(q.value + ['&'] + CStr(text)) else Some(CStr(text))
  {
  }

  /** The query and the flag for posted data once the lines `more` have been read. */
  ghost predicate Posted(url: Option<seq<char>>, more: seq<Line>, query: Option<seq<char>>, postData: bool) {
    query == PostQuery(url, Filled(more)) && postData == (Filled(more) != [])
  }

  lemma PostedEmpty(url: Option<seq<char>>, more: seq<Line>, query: Option<seq<char>>, postData: bool)
    requires Posted(url, more, query, postData)
    ensures Posted(url, more + [[]], query, postData)
  {
    FilledMore(more, []);
  }

  /** One more line. */
  lemma PostedMore(url: Option<seq<char>>, more: seq<Line>, query: Option<seq<char>>, postData: bool, text: Line)
    requires Posted(url, more, query, postData) && text != []
    ensures Posted(url, more + [text],
                   if query.Some? && query.value != [] && !postData then Some(query.value + ['&'] + CStr(text))
                   else Some(CStr(text)), true)
  {
    FilledMore(more, text);
    PostQueryMore(url, Filled(more), text);
  }
}
