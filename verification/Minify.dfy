/** cJSON_Minify: the in-place pass, and that it turns formatted text into unformatted. */
module Minify {
  import opened Option
  import opened Seqs
  import opened CString
  import opened CJson
  import opened JsonText

  function Pre(p: string, r: Option<string>): Option<string> {
    match r case None => None case Some(s) => Some(p + s)
  }

  /** The rest of a string literal up to and with its closing quote, and what follows.
      None when the text ends inside the literal. */
  function Literal(s: string): (r: Option<(string, string)>)
    ensures r.Some? ==> r.value.0 + r.value.1 == s && r.value.0 != ""
    decreases |s|
  {
    if s == "" then None
    else if s[0] == '\"' then Some((s[..1], s[1..]))
    else if s[0] != '\\' then
      match Literal(s[1..]) case None => None case Some((l, r)) => Some((s[..1] + l, r))
    else if |s| == 1 then None
    else match Literal(s[2..]) case None => None case Some((l, r)) => Some((s[..2] + l, r))
  }

  function DropLine(s: string): (r: string)
    ensures |r| <= |s|
  {
    if s == "" || s[0] == '\n' then s else DropLine(s[1..])
  }

  /** Behind the next star-slash; None when there is none. */
  function DropComment(s: string): (r: Option<string>)
    ensures r.Some? ==> |r.value| < |s|
  {
    if s == "" then None
    else if |s| >= 2 && s[0] == '*' && s[1] == '/' then Some(s[2..])
    else DropComment(s[1..])
  }

  predicate White(c: char) {
    c == ' ' || c == '\t' || c == '\r' || c == '\n'
  }

  /** What the pass leaves; None when it would read past the terminator. */
  function Minified(s: string): Option<string>
    decreases |s|
  {
    if s == "" then Some("")
    else if White(s[0]) then Minified(s[1..])
    else if |s| >= 2 && s[0] == '/' && s[1] == '/' then Minified(DropLine(s[1..]))
    else if |s| >= 2 && s[0] == '/' && s[1] == '*' then
      match DropComment(s[1..]) case None => None case Some(r) => Minified(r)
    else if s[0] == '\"' then
      match Literal(s[1..]) case None => None case Some((l, r)) => Pre("\"" + l, Minified(r))
    else Pre([s[0]], Minified(s[1..]))
  }

  // ----- formatted text becomes unformatted text

  predicate Plain(c: char) {
    !White(c) && c != '/' && c != '\"'
  }

  lemma PreTwice(a: string, b: string, r: Option<string>)
    ensures Pre(a, Pre(b, r)) == Pre(a + b, r)
  {
    if r.Some? { assert a + (b + r.value) == (a + b) + r.value; }
  }

  lemma {:induction false} MinifyPlain(p: string, rest: string)
    requires forall i :: 0 <= i < |p| ==> Plain(p[i])
    ensures Minified(p + rest) == Pre(p, Minified(rest))
  {
    if p == "" {
      assert p + rest == rest;
      if Minified(rest).Some? { assert "" + Minified(rest).value == Minified(rest).value; }
    } else {
      assert (p + rest)[1..] == p[1..] + rest && p == [p[0]] + p[1..];
      MinifyPlain(p[1..], rest);
      PreTwice([p[0]], p[1..], Minified(rest));
    }
  }

  lemma {:induction false} MinifyWhite(w: string, rest: string)
    requires forall i :: 0 <= i < |w| ==> White(w[i])
    ensures Minified(w + rest) == Minified(rest)
  {
    if w == "" {
      assert w + rest == rest;
    } else {
      assert (w + rest)[1..] == w[1..] + rest;
      MinifyWhite(w[1..], rest);
    }
  }

  /** A literal with `p` in front of what was copied. */
  function Onto(p: string, r: Option<(string, string)>): Option<(string, string)> {
    match r case None => None case Some((l, rest)) => Some((p + l, rest))
  }

  lemma OntoTwice(a: string, b: string, r: Option<(string, string)>)
    ensures Onto(a, Onto(b, r)) == Onto(a + b, r)
  {
    if r.Some? { Assoc(a, b, r.value.0); }
  }

  /** What a literal is made of: a character, or a backslash and the character behind it. */
  predicate Piece(p: string) {
    (|p| == 1 && p[0] != '\"' && p[0] != '\\') || (|p| == 2 && p[0] == '\\')
  }

  lemma LiteralCons(p: string, s: string)
    requires Piece(p)
    ensures Literal(p + s) == Onto(p, Literal(s))
  {
    assert (p + s)[..|p|] == p && (p + s)[|p|..] == s;
  }

  /** Two pieces, the first of which is copied as it is. */
  lemma LiteralTwo(p: string, q: string, s: string)
    requires Piece(p)
    requires Literal(q + s) == Onto(q, Literal(s))
    ensures Literal((p + q) + s) == Onto(p + q, Literal(s))
  {
    Assoc(p, q, s);
    LiteralCons(p, q + s);
    OntoTwice(p, q, Literal(s));
  }

  lemma LiteralChar(c: char, s: string)
    ensures Literal(EscapeChar(c) + s) == Onto(EscapeChar(c), Literal(s))
  {
    var e := EscapeChar(c);
    if |e| <= 2 {
      LiteralCons(e, s);
    } else {
      LiteralControl(e, e[4..5], e[5..], s);
    }
  }

  lemma LiteralControl(e: string, h: string, g: string, s: string)
    requires |h| == |g| == 1 && h[0] != '\"' && h[0] != '\\' && g[0] != '\"' && g[0] != '\\'
    requires e == "\\u00" + h + g
    ensures Literal(e + s) == Onto(e, Literal(s))
  {
    LiteralCons(g, s);
    LiteralTwo(h, g, s);
    LiteralZeros(h + g, s);
    ControlLayout(h, g);
  }

  lemma LiteralZeros(x: string, s: string)
    requires Literal(x + s) == Onto(x, Literal(s))
    ensures Literal("\\u" + ("0" + ("0" + x)) + s) == Onto("\\u" + ("0" + ("0" + x)), Literal(s))
  {
    LiteralTwo("0", x, s);
    LiteralTwo("0", "0" + x, s);
    LiteralTwo("\\u", "0" + ("0" + x), s);
  }

  lemma ControlLayout(h: string, g: string)
    ensures "\\u00" + h + g == "\\u" + ("0" + ("0" + (h + g)))
  {
  }

  lemma {:induction false} LiteralEscape(s: string, rest: string)
    ensures Literal(Escape(s) + ("\"" + rest)) == Some((Escape(s) + "\"", rest))
  {
    if s == "" {
      var q := "\"" + rest;
      assert Escape(s) + q == q && Escape(s) + "\"" == "\"" && q[..1] == "\"" && q[1..] == rest;
    } else {
      var tail := Escape(s[1..]) + ("\"" + rest);
      LiteralEscape(s[1..], rest);
      Assoc(EscapeChar(s[0]), Escape(s[1..]), "\"" + rest);
      LiteralChar(s[0], tail);
      Assoc(EscapeChar(s[0]), Escape(s[1..]), "\"");
    }
  }

  lemma MinifyString(s: string, rest: string)
    ensures Minified(StringText(s) + rest) == Pre(StringText(s), Minified(rest))
  {
    var q := StringText(s) + rest;
    assert q[0] == '\"' && q[1..] == Escape(s) + ("\"" + rest);
    LiteralEscape(s, rest);
    assert "\"" + (Escape(s) + "\"") == StringText(s);
  }

  lemma MinifyNumber(i: int, d: real, rest: string)
    ensures Minified(NumberText(i, d) + rest) == Pre(NumberText(i, d), Minified(rest))
  {
    MinifyPlain(NumberText(i, d), rest);
  }

  /** Minifying the formatted text of any tree gives its unformatted text. */
  lemma {:induction false} MinifyText(t: Json, depth: nat, d': nat, rest: string)
    ensures Minified(Text(t, depth, true) + rest) == Pre(Text(t, d', false), Minified(rest))
    decreases t
  {
    match t
    case Null => MinifyPlain("null", rest);
    case False => MinifyPlain("false", rest);
    case True => MinifyPlain("true", rest);
    case Number(i, d) => MinifyNumber(i, d, rest);
    case String(s) => MinifyString(s, rest);
    case Array(items) => MinifyArray(items, depth, d', rest);
    case Object(ms) => MinifyObject(ms, depth, d', rest);
  }

  lemma {:induction false} MinifyArray(items: seq<Json>, depth: nat, d': nat, rest: string)
    ensures Minified(Text(Array(items), depth, true) + rest) == Pre(Text(Array(items), d', false), Minified(rest))
    decreases items, 2
  {
    if items == [] {
      MinifyPlain("[]", rest);
    } else {
      var body := ItemsText(items, d' + 1, false);
      ArrayLayout(items, depth, true, rest);
      MinifyPlain("[", ItemsText(items, depth + 1, true) + ("]" + rest));
      MinifyItems(items, depth + 1, d' + 1, "]" + rest);
      MinifyPlain("]", rest);
      PreTwice("[", body, Minified("]" + rest));
      PreTwice("[" + body, "]", Minified(rest));
    }
  }

  lemma MinifyComma(inner: string)
    ensures Minified(Comma(true) + inner) == Pre(",", Minified(inner))
  {
    assert Comma(true) + inner == "," + (" " + inner);
    MinifyPlain(",", " " + inner);
    MinifyWhite(" ", inner);
  }

  lemma {:induction false} MinifyItems(items: seq<Json>, depth: nat, d': nat, close: string)
    requires items != []
    ensures Minified(ItemsText(items, depth, true) + close) == Pre(ItemsText(items, d', false), Minified(close))
    decreases items, 1
  {
    var head := Text(items[0], d', false);
    ItemsLayout(items, depth, true, close);
    MinifyText(items[0], depth, d', AfterItem(items, depth, true, close));
    if |items| == 1 {
      assert ItemsText(items[1..], d', false) == "";
      assert ItemsText(items, d', false) == head;
    } else {
      var inner, inner' := ItemsText(items[1..], depth, true) + close, ItemsText(items[1..], d', false);
      MinifyComma(inner);
      MinifyItems(items[1..], depth, d', close);
      PreTwice(",", inner', Minified(close));
      PreTwice(head, "," + inner', Minified(close));
      Assoc(head, ",", inner');
    }
  }

  lemma MinifyOpt(s: string, rest: string)
    requires forall i :: 0 <= i < |s| ==> White(s[i])
    ensures Minified(Opt(true, s) + rest) == Minified(rest)
  {
    MinifyWhite(s, rest);
  }

  lemma MinifyName(name: string, depth: nat, d': nat, x: string)
    ensures Minified(NameText(name, depth, true) + x) == Pre(NameText(name, d', false), Minified(x))
  {
    var q := StringText(name);
    NameLayout(name, depth, true, x);
    MinifyOpt(Tabs(depth), q + (":" + (Opt(true, "\t") + x)));
    MinifyString(name, ":" + (Opt(true, "\t") + x));
    MinifyPlain(":", Opt(true, "\t") + x);
    MinifyOpt("\t", x);
    PreTwice(q, ":", Minified(x));
    assert NameText(name, d', false) == q + ":";
  }

  lemma MinifyAfter(ms: seq<Member>, depth: nat, close: string)
    requires ms != []
    ensures Minified(AfterMember(ms, depth, true, close))
         == Pre(Opt(|ms| > 1, ","), Minified(MembersText(ms[1..], depth, true) + close))
  {
    var inner := MembersText(ms[1..], depth, true) + close;
    MinifyPlain(Opt(|ms| > 1, ","), Opt(true, "\n") + inner);
    MinifyOpt("\n", inner);
  }

  lemma {:induction false} MinifyMembers(ms: seq<Member>, depth: nat, d': nat, close: string)
    ensures Minified(MembersText(ms, depth, true) + close) == Pre(MembersText(ms, d', false), Minified(close))
    decreases ms, 1
  {
    if ms == [] {
      MinifyPlain("", close);
    } else {
      var after := AfterMember(ms, depth, true, close);
      MembersLayout(ms, depth, true, close);
      MinifyName(ms[0].name, depth, d', Text(ms[0].value, depth, true) + after);
      MinifyText(ms[0].value, depth, d', after);
      MinifyAfter(ms, depth, close);
      MinifyMembers(ms[1..], depth, d', close);
      MembersUnformatted(ms, d', Minified(close));
    }
  }

  lemma MembersUnformatted(ms: seq<Member>, d': nat, r: Option<string>)
    requires ms != []
    ensures Pre(NameText(ms[0].name, d', false),
                Pre(Text(ms[0].value, d', false), Pre(Opt(|ms| > 1, ","), Pre(MembersText(ms[1..], d', false), r))))
         == Pre(MembersText(ms, d', false), r)
  {
    var name, value, comma, tail := NameText(ms[0].name, d', false), Text(ms[0].value, d', false),
        Opt(|ms| > 1, ","), MembersText(ms[1..], d', false);
    PreFour(name, value, comma, tail, r);
    assert MembersText(ms, d', false) == name + value + comma + tail;
  }

  lemma PreFour(a: string, b: string, c: string, d: string, r: Option<string>)
    ensures Pre(a, Pre(b, Pre(c, Pre(d, r)))) == Pre(a + b + c + d, r)
  {
    PreTwice(c, d, r);
    PreTwice(b, c + d, r);
    PreTwice(a, b + (c + d), r);
    Assoc(a + b, c, d);
    Assoc(a, b, c + d);
  }

  lemma {:induction false} MinifyObject(ms: seq<Member>, depth: nat, d': nat, rest: string)
    ensures Minified(Text(Object(ms), depth, true) + rest) == Pre(Text(Object(ms), d', false), Minified(rest))
    decreases ms, 2
  {
    if ms == [] {
      EmptyObject(depth, d', rest);
    } else {
      var body := MembersText(ms, d' + 1, false);
      var close := Opt(true, Tabs(depth)) + ("}" + rest);
      var inner := MembersText(ms, depth + 1, true) + close;
      ObjectLayout(ms, depth, true, rest);
      MinifyPlain("{", Opt(true, "\n") + inner);
      MinifyOpt("\n", inner);
      MinifyMembers(ms, depth + 1, d' + 1, close);
      MinifyOpt(Tabs(depth), "}" + rest);
      MinifyPlain("}", rest);
      PreTwice("{", body, Pre("}", Minified(rest)));
      PreTwice("{" + body, "}", Minified(rest));
      ObjectUnformatted(ms, d');
    }
  }

  lemma ObjectUnformatted(ms: seq<Member>, d': nat)
    requires ms != []
    ensures Text(Object(ms), d', false) == "{" + MembersText(ms, d' + 1, false) + "}"
  {
  }

  lemma EmptyObject(depth: nat, d': nat, rest: string)
    ensures Minified(Text(Object([]), depth, true) + rest) == Pre(Text(Object([]), d', false), Minified(rest))
  {
    var w := "\n" + Tabs(depth - 1);
    assert Text(Object([]), depth, true) + rest == "{" + (w + ("}" + rest));
    MinifyPlain("{", w + ("}" + rest));
    MinifyWhite(w, "}" + rest);
    MinifyPlain("}", rest);
    PreTwice("{", "}", Minified(rest));
    assert Text(Object([]), d', false) == "{" + "}";
  }

  /** cJSON_Minify of cJSON_Print is cJSON_PrintUnformatted. */
  lemma MinifyUndoesFormatting(t: Json)
    ensures Minified(Text(t, 0, true)) == Some(Text(t, 0, false))
  {
    MinifyText(t, 0, 0, "");
    assert Text(t, 0, true) + "" == Text(t, 0, true) && Text(t, 0, false) + "" == Text(t, 0, false);
  }

  // ----- comments, white space and literals in any text

  /** Space, tab, carriage return and newline go; any other character that opens neither a
      literal nor a comment stays. */
  lemma MinifyChar(c: char, rest: string)
    ensures c in " \t\r\n" ==> Minified([c] + rest) == Minified(rest)
    ensures c !in " \t\r\n" && c != '\"' && !(c == '/' && rest != "" && rest[0] in "/*")
        ==> Minified([c] + rest) == Pre([c], Minified(rest))
  {
    assert ([c] + rest)[0] == c && ([c] + rest)[1..] == rest;
  }

  lemma {:induction false} DropLineStops(text: string, rest: string)
    requires '\n' !in text && (rest == "" || rest[0] == '\n')
    ensures DropLine(text + rest) == rest
  {
    if text == "" {
      assert text + rest == rest;
    } else {
      assert (text + rest)[1..] == text[1..] + rest;
      DropLineStops(text[1..], rest);
    }
  }

  /** A comment of two slashes goes, with the newline that ends it or up to the end of the text. */
  lemma MinifyLineComment(text: string, rest: string)
    requires '\n' !in text
    ensures Minified("//" + text) == Some("")
    ensures Minified("//" + text + ("\n" + rest)) == Minified(rest)
  {
    assert ("//" + text)[1..] == ("/" + text) + "";
    DropLineStops("/" + text, "");
    var s := "//" + text + ("\n" + rest);
    assert s[1..] == ("/" + text) + ("\n" + rest);
    DropLineStops("/" + text, "\n" + rest);
    MinifyChar('\n', rest);
  }

  /** Star and slash follow each other nowhere in `s`. */
  predicate NoEnd(s: string) {
    forall i :: 0 <= i < |s| - 1 ==> s[i] == '*' ==> s[i + 1] != '/'
  }

  lemma {:induction false} DropCommentStops(text: string, rest: string)
    requires NoEnd(text)
    ensures DropComment(text) == None
    ensures text != "" && text[|text| - 1] == '*' ==> DropComment(text + ("/" + rest)) == Some(rest)
  {
    var s := text + ("/" + rest);
    if |text| == 1 {
      assert s[2..] == rest && text[1..] == "";
    } else if text != "" {
      assert text[0] == '*' ==> text[1] != '/';
      assert s[1] == text[1] && s[1..] == text[1..] + ("/" + rest);
      DropCommentStops(text[1..], rest);
    }
  }

  /** The other kind of comment goes up to the first star and slash behind its own slash; one
      that is never closed makes the pass run past the terminator. */
  lemma MinifyBlockComment(text: string, rest: string)
    ensures NoEnd("*" + text) ==> Minified("/*" + text) == None
    ensures NoEnd("*" + text + "*") ==> Minified("/*" + text + "*/" + rest) == Minified(rest)
    ensures Minified("/*/" + rest) == Minified(rest)
  {
    if NoEnd("*" + text) {
      assert ("/*" + text)[1..] == "*" + text;
      DropCommentStops("*" + text, rest);
    }
    if NoEnd("*" + text + "*") {
      assert ("/*" + text + "*/" + rest)[1..] == ("*" + text + "*") + ("/" + rest);
      DropCommentStops("*" + text + "*", rest);
    }
    assert ("/*/" + rest)[1..] == "*" + ("/" + rest);
    DropCommentStops("*", rest);
  }

  function Joined(pieces: seq<string>): string {
    if pieces == [] then "" else pieces[0] + Joined(pieces[1..])
  }

  lemma {:induction false} LiteralPieces(pieces: seq<string>, s: string)
    requires forall i :: 0 <= i < |pieces| ==> Piece(pieces[i])
    ensures Literal(Joined(pieces) + s) == Onto(Joined(pieces), Literal(s))
  {
    if pieces == [] {
      assert "" + s == s;
      if Literal(s).Some? { assert "" + Literal(s).value.0 == Literal(s).value.0; }
    } else {
      LiteralPieces(pieces[1..], s);
      LiteralTwo(pieces[0], Joined(pieces[1..]), s);
    }
  }

  /** A literal stays as it is, whatever it holds: white space, slashes, any escapes. */
  lemma MinifyAnyLiteral(pieces: seq<string>, rest: string)
    requires forall i :: 0 <= i < |pieces| ==> Piece(pieces[i])
    ensures var text := "\"" + (Joined(pieces) + "\"");
            Minified(text + rest) == Pre(text, Minified(rest)) && Minified("\"" + Joined(pieces)) == None
  {
    var body, q := Joined(pieces), "\"" + rest;
    assert ("\"" + (body + "\"") + rest)[1..] == body + q;
    assert q[..1] == "\"" && q[1..] == rest;
    LiteralPieces(pieces, q);
    assert ("\"" + body)[1..] == body + "";
    LiteralPieces(pieces, "");
  }

  // ----- the pass itself

  /** The buffer still holds `text` from `json` on, and its terminator. */
  ghost predicate Unread(buf: array<char>, text: string, json: nat)
    reads buf
  {
    && json <= |text| < buf.Length && NulFree(text)
    && buf[|text|] == '\0'
    && forall i :: json <= i < |text| ==> buf[i] == text[i]
  }

  /** *into++ = *json++ */
  method CopyOne(buf: array<char>, json: nat, into: nat, ghost text: string, ghost done: string)
    requires Unread(buf, text, json) && into <= json < |text| && buf[..into] == done
    modifies buf
    ensures Unread(buf, text, json + 1) && buf[..into + 1] == done + [text[json]]
  {
    buf[into] := buf[json];
  }

  /** One character of a literal, with the backslash in front of it if there is one. */
  method CopyLiteralChar(buf: array<char>, json: nat, into: nat, ghost text: string,
                         ghost full: string) returns (json': nat, into': nat)
    requires Unread(buf, text, json) && into <= json < |text| && text[json] != '\"'
    requires Literal(text[json..]).Some? && buf[..into] + Literal(text[json..]).value.0 == full
    modifies buf
    ensures into' <= json' && json < json' && Unread(buf, text, json')
    ensures Literal(text[json'..]).Some? && buf[..into'] + Literal(text[json'..]).value.0 == full
    ensures Literal(text[json'..]).value.1 == Literal(text[json..]).value.1
  {
    LiteralStep(text, json);
    ghost var done := buf[..into];
    json', into' := json, into;
    if buf[json] == '\\' {
      CopyOne(buf, json, into, text, done);
      json', into' := json + 1, into + 1;
    }
    CopyOne(buf, json', into', text, buf[..into']);
    json', into' := json' + 1, into' + 1;
    assert buf[..into'] == done + text[json..json'];
    Assoc(done, text[json..json'], Literal(text[json'..]).value.0);
  }

  /** Copies the rest of a string literal, escapes and all, up to its closing quote. */
  method CopyLiteral(buf: array<char>, json: nat, into: nat, ghost text: string) returns (json': nat, into': nat)
    requires Unread(buf, text, json) && into <= json
    requires Literal(text[json..]).Some?
    modifies buf
    ensures into' <= json' && json < json' && Unread(buf, text, json')
    ensures Literal(text[json..]).value.1 == text[json'..]
    ensures buf[..into'] == old(buf[..into]) + Literal(text[json..]).value.0
  {
    ghost var goal := Literal(text[json..]).value;
    ghost var full := buf[..into] + goal.0;
    json', into' := json, into;
    while buf[json'] != '\0' && buf[json'] != '\"'
      invariant json <= json' && into' <= json' && Unread(buf, text, json')
      invariant Literal(text[json'..]).Some? && Literal(text[json'..]).value.1 == goal.1
      invariant buf[..into'] + Literal(text[json'..]).value.0 == full
      decreases |text| - json'
    {
      json', into' := CopyLiteralChar(buf, json', into', text, full);
    }
    assert text[json'..][..1] == [text[json']] && text[json'..][1..] == text[json' + 1..];
    CopyOne(buf, json', into', text, buf[..into']);
    json', into' := json' + 1, into' + 1;
  }

  /** A literal that does not end here goes on behind one character, or two if escaped. */
  lemma LiteralStep(text: string, i: nat)
    requires i < |text| && text[i] != '\"' && Literal(text[i..]).Some?
    ensures var k := if text[i] == '\\' then i + 2 else i + 1;
            k <= |text| && Literal(text[k..]).Some?
            && Literal(text[i..]).value == (text[i..k] + Literal(text[k..]).value.0, Literal(text[k..]).value.1)
  {
    var s := text[i..];
    assert s[1..] == text[i + 1..] && s[..1] == text[i..i + 1];
    if |s| >= 2 { assert s[2..] == text[i + 2..] && s[..2] == text[i..i + 2]; }
  }

  method SkipLine(buf: array<char>, json: nat, ghost text: string) returns (json': nat)
    requires Unread(buf, text, json)
    ensures json <= json' <= |text| && text[json'..] == DropLine(text[json..])
  {
    json' := json;
    while buf[json'] != '\0' && buf[json'] != '\n'
      invariant json <= json' <= |text|
      invariant DropLine(text[json'..]) == DropLine(text[json..])
      decreases |text| - json'
    {
      assert text[json'..][1..] == text[json' + 1..];
      json' := json' + 1;
    }
  }

  method SkipComment(buf: array<char>, json: nat, ghost text: string) returns (json': nat)
    requires Unread(buf, text, json) && DropComment(text[json..]).Some?
    ensures json < json' <= |text| && DropComment(text[json..]) == Some(text[json'..])
  {
    json' := json;
    while !(buf[json'] == '*' && buf[json' + 1] == '/')
      invariant json <= json' <= |text|
      invariant DropComment(text[json'..]) == DropComment(text[json..])
      decreases |text| - json'
    {
      assert text[json'..][1..] == text[json' + 1..];
      json' := json' + 1;
    }
    assert text[json'..][2..] == text[json' + 2..];
    json' := json' + 2;
  }

  /** Minify in place: the text left in the buffer is `Minified` of what was there; the
      write position never passes the read position, so nothing unread is overwritten. */
  method MinifyInPlace(buf: array<char>, n: nat) returns (into: nat)
    requires n < buf.Length && buf[n] == '\0' && NulFree(buf[..n])
    requires Minified(buf[..n]).Some?
    modifies buf
    ensures into <= n && buf[into] == '\0'
    ensures Some(buf[..into]) == Minified(old(buf[..n]))
  {
    ghost var text := buf[..n];
    ghost var goal := Minified(text).value;
    var json := 0;
    into := 0;
    assert text[0..] == text && buf[..0] == "" && "" + goal == goal;
    while buf[json] != '\0'
      invariant into <= json <= n && Unread(buf, text, json)
      invariant Minified(text[json..]).Some? && buf[..into] + Minified(text[json..]).value == goal
      decreases n - json
    {
      assert text[json..][1..] == text[json + 1..];
      if White(buf[json]) {
        json := json + 1;
      } else if buf[json] == '/' && buf[json + 1] == '/' {
        json := SkipLine(buf, json + 1, text);
      } else if buf[json] == '/' && buf[json + 1] == '*' {
        json := SkipComment(buf, json + 1, text);
      } else if buf[json] == '\"' {
        json, into := MinifyLiteral(buf, json, into, text, goal);
      } else {
        json, into := KeepChar(buf, json, into, text, goal);
      }
    }
    assert text[json..] == "";
    assert buf[..into] == goal;
    buf[into] := '\0';
    assert buf[..into] == goal;
  }

  method KeepChar(buf: array<char>, json: nat, into: nat, ghost text: string, ghost goal: string) returns (json': nat,
                  into': nat)
    requires Unread(buf, text, json) && into <= json < |text|
    requires Minified(text[json..]) == Pre([text[json]], Minified(text[json + 1..]))
    requires Minified(text[json..]).Some? && buf[..into] + Minified(text[json..]).value == goal
    modifies buf
    ensures into' <= json' == json + 1 && Unread(buf, text, json')
    ensures Minified(text[json'..]).Some? && buf[..into'] + Minified(text[json'..]).value == goal
  {
    ghost var done := buf[..into];
    buf[into] := buf[json];
    json', into' := json + 1, into + 1;
    assert buf[..into'] == done + [text[json]];
    Assoc(done, [text[json]], Minified(text[json'..]).value);
  }

  method MinifyLiteral(buf: array<char>, json: nat, into: nat, ghost text: string,
                       ghost goal: string) returns (json': nat, into': nat)
    requires Unread(buf, text, json) && into <= json < |text| && text[json] == '\"'
    requires Minified(text[json..]).Some? && buf[..into] + Minified(text[json..]).value == goal
    modifies buf
    ensures into' <= json' && json < json' && Unread(buf, text, json')
    ensures Minified(text[json'..]).Some? && buf[..into'] + Minified(text[json'..]).value == goal
  {
    assert text[json..][1..] == text[json + 1..];
    ghost var done := buf[..into];
    ghost var lit := Literal(text[json + 1..]).value.0;
    buf[into] := buf[json];
    assert buf[..into + 1] == done + "\"";
    json', into' := CopyLiteral(buf, json + 1, into + 1, text);
    Assoc(done, "\"", lit);
    Assoc(done, "\"" + lit, Minified(text[json'..]).value);
  }
}
