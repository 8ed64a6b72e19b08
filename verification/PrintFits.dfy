/** Printed text is regular behind all its quotes, so the parser reads it inside its buffers. */
module PrintFits {
  import opened Seqs
  import opened CString
  import opened CJson
  import opened JsonText
  import opened StringBuffer
  import RoundTrip

  /** Regular as the inside of a string, and behind every quote. */
  ghost predicate Good(s: string) {
    Regular(s) && AllRegular(s)
  }

  predicate Unquoted(p: string) {
    forall i :: 0 <= i < |p| ==> p[i] != '\"' && p[i] != '\\'
  }

  lemma GoodChar(c: char, rest: string)
    requires c != '\"' && c != '\\' && Good(rest)
    ensures Good([c] + rest)
  {
    var s := [c] + rest;
    assert s[1..] == rest;
    forall i | 0 <= i < |s| && s[i] == '\"'
      ensures Regular(s[i + 1..])
    {
      assert rest[i - 1] == s[i] && rest[i..] == s[i + 1..];
    }
  }

  lemma {:induction false} UnquotedGood(p: string, rest: string)
    requires Unquoted(p) && Good(rest)
    ensures Good(p + rest)
  {
    if p == "" {
      assert p + rest == rest;
    } else {
      UnquotedGood(p[1..], rest);
      GoodChar(p[0], p[1..] + rest);
      assert p + rest == [p[0]] + (p[1..] + rest);
    }
  }

  lemma QuoteGood(rest: string)
    requires Good(rest)
    ensures Good("\"" + rest)
  {
    var s := "\"" + rest;
    forall i | 0 <= i < |s| && s[i] == '\"'
      ensures Regular(s[i + 1..])
    {
      if i == 0 { assert s[1..] == rest; } else { assert rest[i - 1] == s[i] && rest[i..] == s[i + 1..]; }
    }
  }

  lemma EscapeCharGood(c: char, tail: string)
    requires c != '\0' && Good(tail)
    ensures Good(EscapeChar(c) + tail)
  {
    var e := EscapeChar(c);
    RegularChar(c, tail);
    RoundTrip.EscapeForms(c, e);
    if |e| == 2 {
      EscapePairGood(e[1], tail);
    } else if |e| == 1 {
      GoodChar(c, tail);
    } else {
      EscapeControlGood(e, tail);
    }
  }

  lemma EscapePairGood(x: char, tail: string)
    requires Good(tail) && x != 'u'
    ensures Good(['\\', x] + tail)
  {
    var s := ['\\', x] + tail;
    assert s[2..] == tail;
    forall i | 0 <= i < |s| && s[i] == '\"'
      ensures Regular(s[i + 1..])
    {
      if i > 1 { assert tail[i - 2] == s[i] && tail[i - 1..] == s[i + 1..]; }
    }
  }

  lemma EscapeControlGood(e: string, tail: string)
    requires |e| == 6 && Regular(e + tail) && Good(tail) && forall i :: 0 <= i < 6 ==> e[i] != '\"'
    ensures Good(e + tail)
  {
    var s := e + tail;
    forall i | 0 <= i < |s| && s[i] == '\"'
      ensures Regular(s[i + 1..])
    {
      assert tail[i - 6] == s[i] && tail[i - 5..] == s[i + 1..];
    }
  }

  lemma {:induction false} EscapeGood(v: string, rest: string)
    requires NulFree(v) && Good(rest)
    ensures Good(Escape(v) + rest)
  {
    if v == "" {
      assert Escape(v) + rest == rest;
    } else {
      EscapeGood(v[1..], rest);
      EscapeCharGood(v[0], Escape(v[1..]) + rest);
      Assoc(EscapeChar(v[0]), Escape(v[1..]), rest);
    }
  }

  lemma StringGood(v: string, rest: string)
    requires NulFree(v) && Good(rest)
    ensures Good(StringText(v) + rest)
  {
    QuoteGood(rest);
    EscapeGood(v, "\"" + rest);
    QuoteGood(Escape(v) + ("\"" + rest));
    Assoc("\"" + Escape(v), "\"", rest);
    Assoc("\"", Escape(v), "\"" + rest);
  }

  // ----- trees

  lemma {:induction false} TextGood(t: Json, depth: nat, fmt: bool, rest: string)
    requires Printable(t) && Good(rest)
    ensures Good(Text(t, depth, fmt) + rest)
    decreases t
  {
    match t
    case Null => UnquotedGood("null", rest);
    case False => UnquotedGood("false", rest);
    case True => UnquotedGood("true", rest);
    case Number(i, d) => UnquotedGood(NumberText(i, d), rest);
    case String(v) => StringGood(v, rest);
    case Array(items) =>
      if items == [] {
        UnquotedGood("[]", rest);
      } else {
        UnquotedGood("]", rest);
        ItemsGood(items, depth + 1, fmt, "]" + rest);
        UnquotedGood("[", ItemsText(items, depth + 1, fmt) + ("]" + rest));
        ArrayLayout(items, depth, fmt, rest);
      }
    case Object(ms) => ObjectGood(ms, depth, fmt, rest);
  }

  lemma {:induction false} ItemsGood(items: seq<Json>, depth: nat, fmt: bool, close: string)
    requires PrintableItems(items) && Good(close)
    ensures Good(ItemsText(items, depth, fmt) + close)
    decreases items, 0
  {
    if items == [] {
      assert ItemsText(items, depth, fmt) + close == close;
    } else {
      ItemsGood(items[1..], depth, fmt, close);
      UnquotedGood(Comma(fmt), ItemsText(items[1..], depth, fmt) + close);
      TextGood(items[0], depth, fmt, AfterItem(items, depth, fmt, close));
      ItemsLayout(items, depth, fmt, close);
    }
  }

  lemma NameGood(name: string, depth: nat, fmt: bool, x: string)
    requires NulFree(name) && Good(x)
    ensures Good(NameText(name, depth, fmt) + x)
  {
    UnquotedGood(Opt(fmt, "\t"), x);
    UnquotedGood(":", Opt(fmt, "\t") + x);
    StringGood(name, ":" + (Opt(fmt, "\t") + x));
    UnquotedGood(Opt(fmt, Tabs(depth)), StringText(name) + (":" + (Opt(fmt, "\t") + x)));
    NameLayout(name, depth, fmt, x);
  }

  lemma {:induction false} MembersGood(ms: seq<Member>, depth: nat, fmt: bool, close: string)
    requires PrintableMembers(ms) && Good(close)
    ensures Good(MembersText(ms, depth, fmt) + close)
    decreases ms, 0
  {
    if ms == [] {
      assert MembersText(ms, depth, fmt) + close == close;
    } else {
      var inner := MembersText(ms[1..], depth, fmt) + close;
      MembersGood(ms[1..], depth, fmt, close);
      UnquotedGood(Opt(fmt, "\n"), inner);
      UnquotedGood(Opt(|ms| > 1, ","), Opt(fmt, "\n") + inner);
      TextGood(ms[0].value, depth, fmt, AfterMember(ms, depth, fmt, close));
      NameGood(ms[0].name, depth, fmt, Text(ms[0].value, depth, fmt) + AfterMember(ms, depth, fmt, close));
      MembersLayout(ms, depth, fmt, close);
    }
  }

  lemma {:induction false} ObjectGood(ms: seq<Member>, depth: nat, fmt: bool, rest: string)
    requires PrintableMembers(ms) && Good(rest)
    ensures Good(Text(Object(ms), depth, fmt) + rest)
    decreases ms, 1
  {
    if ms == [] {
      UnquotedGood(Text(Object(ms), depth, fmt), rest);
    } else {
      var close := Opt(fmt, Tabs(depth)) + ("}" + rest);
      UnquotedGood("}", rest);
      UnquotedGood(Opt(fmt, Tabs(depth)), "}" + rest);
      MembersGood(ms, depth + 1, fmt, close);
      UnquotedGood(Opt(fmt, "\n"), MembersText(ms, depth + 1, fmt) + close);
      UnquotedGood("{", Opt(fmt, "\n") + (MembersText(ms, depth + 1, fmt) + close));
      ObjectLayout(ms, depth, fmt, rest);
    }
  }

  /** The text of a tree is regular behind all its quotes. */
  lemma PrintedAllRegular(t: Json, fmt: bool)
    requires Printable(t)
    ensures AllRegular(Text(t, 0, fmt))
  {
    TextGood(t, 0, fmt, "");
    assert Text(t, 0, fmt) + "" == Text(t, 0, fmt);
  }
}
