/** Parse undoes print, for both layouts; escapes of any code point decode to its UTF-8. */
module RoundTrip {
  import opened Seqs
  import opened Option
  import opened CString
  import opened CJson
  import opened JsonText
  import opened Parser

  /** Text that cannot extend a number. */
  predicate Ends(rest: string) {
    rest == "" || (!IsDigit(rest[0]) && rest[0] !in ".eE")
  }

  // ----- strings

  lemma HexDigitVal(d: nat)
    requires d < 16
    ensures HexVal(HexDigit(d)) == d
  {
  }

  lemma UnescapePlain(c: char, tail: string)
    requires c as int > 31 && c != '\"' && c != '\\'
    ensures Unescape([c] + tail) == Prefixed([c], Unescape(tail))
  {
    assert ([c] + tail)[1..] == tail;
  }

  lemma UnescapeShort(c: char, x: char, tail: string)
    requires x != 'u' && Unescaped(x) == c
    ensures Unescape(['\\', x] + tail) == Prefixed([c], Unescape(tail))
  {
    assert (['\\', x] + tail)[2..] == tail;
  }

  lemma UnescapeControl(c: char, tail: string)
    requires 0 < c as int < 32
    ensures Unescape("\\u00" + [HexDigit(c as int / 16), HexDigit(c as int % 16)] + tail)
         == Prefixed([c], Unescape(tail))
  {
    var s := "\\u00" + [HexDigit(c as int / 16), HexDigit(c as int % 16)] + tail;
    HexDigitVal(c as int / 16);
    HexDigitVal(c as int % 16);
    assert Hex4(s[2..]) == c as int;
    assert s[2 + 4..] == tail;
  }

  /** The three forms an escaped character takes. */
  lemma EscapeForms(c: char, e: string)
    requires e == EscapeChar(c) && c != '\0'
    ensures |e| == 1 ==> e == [c] && c as int > 31 && c != '\"' && c != '\\'
    ensures |e| == 2 ==> e == ['\\', e[1]] && e[1] != 'u' && Unescaped(e[1]) == c
    ensures |e| > 2 ==> 0 < c as int < 32 && e == "\\u00" + [HexDigit(c as int / 16), HexDigit(c as int % 16)]
    ensures |e| >= 1
  {
  }

  lemma UnescapeChar(c: char, tail: string)
    requires c != '\0'
    ensures Unescape(EscapeChar(c) + tail) == Prefixed([c], Unescape(tail))
  {
    var e := EscapeChar(c);
    EscapeForms(c, e);
    if |e| == 1 {
      UnescapePlain(c, tail);
    } else if |e| == 2 {
      UnescapeShort(c, e[1], tail);
    } else {
      UnescapeControl(c, tail);
    }
  }

  lemma {:induction false} UnescapeEscape(s: string, rest: string)
    requires NulFree(s)
    ensures Unescape(Escape(s) + "\"" + rest) == Parsed(s, rest)
  {
    if s == "" {
      var q := Escape(s) + "\"" + rest;
      assert q[1..] == rest;
    } else {
      var tail := Escape(s[1..]) + "\"" + rest;
      assert Escape(s) + "\"" + rest == EscapeChar(s[0]) + tail;
      UnescapeChar(s[0], tail);
      UnescapeEscape(s[1..], rest);
      assert [s[0]] + s[1..] == s;
    }
  }

  /** Quoting and parsing a C string gives it back. */
  lemma StringRoundTrip(s: string, rest: string)
    requires NulFree(s)
    ensures ParseString(StringText(s) + rest) == Parsed(s, rest)
  {
    var q := StringText(s) + rest;
    assert q[1..] == Escape(s) + "\"" + rest;
    UnescapeEscape(s, rest);
  }

  // ----- numbers

  lemma DigitsRoundTrip(n: nat, rest: string)
    requires Ends(rest)
    ensures ScanDigits(Decimal(n) + rest, 0) == (n, rest)
  {
    ScanDecimal(n, rest);
  }

  lemma NumberRoundTrip(i: int, rest: string)
    requires Ends(rest)
    ensures ParseNumber'(DecimalInt(i) + rest) == Parsed(Number(i, i as real), rest)
  {
    var n := if i < 0 then -i else i;
    SignAndDigits(i, n, rest);
    var s := DecimalInt(i) + rest;
    NumberParses(s, i < 0, if i < 0 then s[1..] else s, n, rest);
    WholeNumber(i < 0, n, rest);
  }

  lemma SignAndDigits(i: int, n: nat, rest: string)
    requires n == if i < 0 then -i else i
    ensures var s := DecimalInt(i) + rest;
            && s != "" && (s[0] == '-' <==> i < 0) && (i >= 0 ==> IsDigit(s[0]))
            && (if i < 0 then s[1..] else s) == Decimal(n) + rest
  {
    var d := Decimal(n);
    assert IsDigit(d[0]);
    MinusLayout(d, rest);
  }

  lemma MinusLayout(d: string, rest: string)
    requires d != ""
    ensures ("-" + d + rest)[0] == '-' && ("-" + d + rest)[1..] == d + rest && (d + rest)[0] == d[0]
  {
  }

  lemma NumberParses(s: string, neg: bool, s1: string, n: nat, rest: string)
    requires s != "" && (s[0] == '-' || IsDigit(s[0])) && (s[0] == '-' <==> neg) && s1 == if neg then s[1..] else s
    requires s1 == Decimal(n) + rest && Ends(rest)
    ensures ParseNumber(s) == Number'(neg, n, 0, rest)
  {
    DigitsRoundTrip(n, rest);
    if n == 0 {
      assert s1[1..] == rest;
    }
    assert ParseExponent(rest) == (0, rest);
  }

  lemma WholeNumber(neg: bool, n: nat, rest: string)
    ensures var i: int := if neg then 0 - n else n; Number'(neg, n, 0, rest) == Parsed(Number(i, i as real), rest)
  {
    var i: int := if neg then 0 - n else n;
    var x := (if neg then -1.0 else 1.0) * (n as real) * Pow10(0);
    assert x == i as real;
    assert Trunc(x) == i;
  }

  /** ParseNumber on text known to start a number. */
  function ParseNumber'(s: string): Parsed<Json> {
    if s != "" && (s[0] == '-' || IsDigit(s[0])) then ParseNumber(s) else Fail
  }

  // ----- white space

  lemma SkipOne(c: char, s: string)
    requires c as int <= 32
    ensures Skip([c] + s) == Skip(s)
  {
    assert ([c] + s)[1..] == s;
  }

  lemma {:induction false} SkipTabs(n: int, s: string)
    ensures Skip(Tabs(n) + s) == Skip(s)
    decreases if n > 0 then n else 0
  {
    if n <= 0 {
      assert Tabs(n) + s == s;
    } else {
      assert Tabs(n) + s == Tabs(n - 1) + (['\t'] + s);
      SkipTabs(n - 1, ['\t'] + s);
      SkipOne('\t', s);
    }
  }

  /** Printed values start with a visible character that decides how they are parsed. */
  lemma TextStart(t: Json, depth: nat, fmt: bool)
    ensures Text(t, depth, fmt) != "" && Text(t, depth, fmt)[0] as int > 32
  {
  }

  lemma SkipText(t: Json, depth: nat, fmt: bool, rest: string)
    ensures Skip(Text(t, depth, fmt) + rest) == Text(t, depth, fmt) + rest
  {
    TextStart(t, depth, fmt);
  }

  // ----- the theorem

  lemma LiteralsParse(rest: string)
    ensures ParseValue("null" + rest) == Parsed(Null, rest)
    ensures ParseValue("false" + rest) == Parsed(False, rest)
    ensures ParseValue("true" + rest) == Parsed(True, rest)
  {
    var n, f, t := "null" + rest, "false" + rest, "true" + rest;
    assert n[4..] == rest && f[5..] == rest && t[4..] == rest;
    assert n[0] == 'n' && f[0] == 'f' && t[0] == 't';
  }

  lemma {:induction false} ValueRoundTrip(t: Json, depth: nat, fmt: bool, rest: string)
    requires Printable(t) && Ends(rest)
    ensures ParseValue(Text(t, depth, fmt) + rest) == Parsed(t, rest)
    decreases t
  {
    match t
    case Null => LiteralsParse(rest);
    case False => LiteralsParse(rest);
    case True => LiteralsParse(rest);
    case Number(i, d) => NumberRoundTrip(i, rest);
    case String(v) => StringRoundTrip(v, rest);
    case Array(items) => ArrayRoundTrip(items, depth, fmt, rest);
    case Object(ms) => ObjectRoundTrip(ms, depth, fmt, rest);
  }

  lemma ParseOpenBracket(body: string)
    requires body != "" && Skip(body) == body && body[0] != ']'
    ensures ParseValue("[" + body)
         == match ParseItems(body) case Fail => Fail case Parsed(items, rest) => Parsed(Array(items), rest)
  {
    var s := "[" + body;
    assert s[1..] == body;
    ParseBracket(s, body);
  }

  lemma ParseBracket(s: string, body: string)
    requires s != "" && s[0] == '[' && s[1..] == body
    requires body != "" && Skip(body) == body && body[0] != ']'
    ensures ParseValue(s)
         == match ParseItems(body) case Fail => Fail case Parsed(items, rest) => Parsed(Array(items), rest)
  {
  }

  lemma {:induction false} ArrayRoundTrip(items: seq<Json>, depth: nat, fmt: bool, rest: string)
    requires PrintableItems(items)
    ensures ParseValue(Text(Array(items), depth, fmt) + rest) == Parsed(Array(items), rest)
    decreases items, 2
  {
    if items == [] {
      var s := Text(Array(items), depth, fmt) + rest;
      assert s[0] == '[' && s[1..] == "]" + rest && s[1..][1..] == rest;
    } else {
      ArrayLayout(items, depth, fmt, rest);
      ItemsStart(items, depth + 1, fmt, "]" + rest);
      ParseOpenBracket(ItemsText(items, depth + 1, fmt) + ("]" + rest));
      ItemsRoundTrip(items, depth + 1, fmt, rest);
    }
  }

  lemma TextNotClosing(t: Json, depth: nat, fmt: bool)
    ensures Text(t, depth, fmt)[..1] != "]" && Text(t, depth, fmt) != "" && Text(t, depth, fmt)[0] as int > 32
  {
    TextStart(t, depth, fmt);
    if t.Number? { assert Text(t, depth, fmt)[0] == '-' || IsDigit(Text(t, depth, fmt)[0]); }
  }

  lemma ItemsStart(items: seq<Json>, depth: nat, fmt: bool, close: string)
    requires items != []
    ensures var s := ItemsText(items, depth, fmt) + close;
            s != "" && Skip(s) == s && s[0] != ']'
  {
    var head := Text(items[0], depth, fmt);
    TextNotClosing(items[0], depth, fmt);
    assert head[..1] == [head[0]];
    ItemsLayout(items, depth, fmt, close);
  }

  lemma {:induction false} ItemsRoundTrip(items: seq<Json>, depth: nat, fmt: bool, rest: string)
    requires items != [] && PrintableItems(items)
    ensures ParseItems(ItemsText(items, depth, fmt) + ("]" + rest)) == Parsed(items, rest)
    decreases items, 1
  {
    var close := "]" + rest;
    var s := ItemsText(items, depth, fmt) + close;
    var after := AfterItem(items, depth, fmt, close);
    ItemsLayout(items, depth, fmt, close);
    SkipText(items[0], depth, fmt, after);
    assert Ends(after);
    ValueRoundTrip(items[0], depth, fmt, after);
    if |items| == 1 {
      OneItem(items, depth, fmt, rest, s);
    } else {
      ItemsRoundTrip(items[1..], depth, fmt, rest);
      MoreItems(items, fmt, ItemsText(items[1..], depth, fmt) + close, rest, s);
    }
  }

  lemma OneItem(items: seq<Json>, depth: nat, fmt: bool, rest: string, s: string)
    requires |items| == 1 && ParseValue(Skip(s)) == Parsed(items[0], AfterItem(items, depth, fmt, "]" + rest))
    ensures ParseItems(s) == Parsed(items, rest)
  {
    var close := "]" + rest;
    assert close[1..] == rest && AfterItem(items, depth, fmt, close) == close && Skip(close) == close;
    assert items == [items[0]];
  }

  lemma MoreItems(items: seq<Json>, fmt: bool, inner: string, rest: string, s: string)
    requires |items| > 1 && ParseValue(Skip(s)) == Parsed(items[0], Comma(fmt) + inner)
    requires ParseItems(inner) == Parsed(items[1..], rest)
    ensures ParseItems(s) == Parsed(items, rest)
  {
    CommaSkip(fmt, inner);
    ParseMoreItems(s, items, Comma(fmt) + inner, rest);
  }

  lemma ParseMoreItems(s: string, items: seq<Json>, after: string, rest: string)
    requires |items| > 1 && ParseValue(Skip(s)) == Parsed(items[0], after)
    requires Skip(after) == after != "" && after[0] == ',' && ParseItems(after[1..]) == Parsed(items[1..], rest)
    ensures ParseItems(s) == Parsed(items, rest)
  {
    assert items == [items[0]] + items[1..];
  }

  /** Behind the comma the next value is found whether or not a space follows. */
  lemma CommaSkip(fmt: bool, tail: string)
    ensures Skip(Comma(fmt) + tail) == Comma(fmt) + tail != "" && (Comma(fmt) + tail)[0] == ','
    ensures ParseItems((Comma(fmt) + tail)[1..]) == ParseItems(tail)
  {
    var s := Comma(fmt) + tail;
    if fmt {
      assert s[1..] == [' '] + tail;
      SkipOne(' ', tail);
    } else {
      assert s[1..] == tail;
    }
  }

  lemma {:induction false} SkipTwice(s: string)
    ensures Skip(Skip(s)) == Skip(s)
  {
    if s != "" && s[0] as int <= 32 { SkipTwice(s[1..]); }
  }

  lemma SkipOpt(b: bool, c: char, s: string)
    requires c as int <= 32
    ensures Skip(Opt(b, [c]) + s) == Skip(s)
  {
    if b { SkipOne(c, s); } else { assert Opt(b, [c]) + s == s; }
  }

  lemma SkipOptTabs(b: bool, n: int, s: string)
    ensures Skip(Opt(b, Tabs(n)) + s) == Skip(s)
  {
    if b { SkipTabs(n, s); } else { assert Opt(b, Tabs(n)) + s == s; }
  }

  /** A name and a value with any of the layouts in between. */
  lemma {:induction false} MemberRoundTrip(m: Member, depth: nat, fmt: bool, after: string)
    requires NulFree(m.name) && Printable(m.value) && Ends(after)
    ensures ParseMember(NameText(m.name, depth, fmt) + (Text(m.value, depth, fmt) + after)) == Parsed(m, after)
    decreases m
  {
    var value := Text(m.value, depth, fmt) + after;
    NameLayout(m.name, depth, fmt, value);
    SkipText(m.value, depth, fmt, after);
    ValueRoundTrip(m.value, depth, fmt, after);
    NameAndValue(m, depth, fmt, value, after);
  }

  lemma NameAndValue(m: Member, depth: nat, fmt: bool, value: string, after: string)
    requires NulFree(m.name) && Skip(value) == value && ParseValue(value) == Parsed(m.value, after)
    ensures ParseMember(Opt(fmt, Tabs(depth)) + (StringText(m.name) + (":" + (Opt(fmt, "\t") + value))))
         == Parsed(m, after)
  {
    var tail := Opt(fmt, "\t") + value;
    var colon := ":" + tail;
    var quoted := StringText(m.name) + colon;
    SkipOptTabs(fmt, depth, quoted);
    assert quoted[0] == '\"' && Skip(quoted) == quoted;
    StringRoundTrip(m.name, colon);
    assert colon[0] == ':' && Skip(colon) == colon && colon[1..] == tail;
    SkipOpt(fmt, '\t', value);
  }

  /** The first of several members is parsed up to what separates it from the next. */
  lemma {:induction false} FirstMember(ms: seq<Member>, depth: nat, fmt: bool, close: string)
    requires ms != [] && PrintableMembers(ms) && Ends(close)
    ensures ParseMember(MembersText(ms, depth, fmt) + close) == Parsed(ms[0], AfterMember(ms, depth, fmt, close))
    decreases ms, 0
  {
    MembersLayout(ms, depth, fmt, close);
    AfterMemberEnds(ms, depth, fmt, close);
    MemberRoundTrip(ms[0], depth, fmt, AfterMember(ms, depth, fmt, close));
  }

  lemma {:induction false} MembersRoundTrip(ms: seq<Member>, depth: nat, fmt: bool, close: string, rest: string)
    requires ms != [] && PrintableMembers(ms) && Skip(close) == "}" + rest && Ends(close)
    ensures ParseMembers(MembersText(ms, depth, fmt) + close) == Parsed(ms, rest)
    decreases ms, 1
  {
    FirstMember(ms, depth, fmt, close);
    var s := MembersText(ms, depth, fmt) + close;
    if |ms| == 1 {
      OneMember(ms, depth, fmt, close, rest, s);
    } else {
      MembersRoundTrip(ms[1..], depth, fmt, close, rest);
      var inner := MembersText(ms[1..], depth, fmt) + close;
      MoreMembers(ms, fmt, inner, AfterMember(ms, depth, fmt, close), rest, s);
    }
  }

  lemma OneMember(ms: seq<Member>, depth: nat, fmt: bool, close: string, rest: string, s: string)
    requires |ms| == 1 && Skip(close) == "}" + rest
    requires ParseMember(s) == Parsed(ms[0], AfterMember(ms, depth, fmt, close))
    ensures ParseMembers(s) == Parsed(ms, rest)
  {
    assert MembersText(ms[1..], depth, fmt) + close == close;
    LastMember(ms[0], fmt, close, rest);
    ParseLast(s, ms[0], AfterMember(ms, depth, fmt, close), rest);
    assert ms == [ms[0]];
  }

  lemma MoreMembers(ms: seq<Member>, fmt: bool, inner: string, after: string, rest: string, s: string)
    requires |ms| > 1 && ParseMembers(inner) == Parsed(ms[1..], rest)
    requires after == Opt(true, ",") + (Opt(fmt, "\n") + inner) && ParseMember(s) == Parsed(ms[0], after)
    ensures ParseMembers(s) == Parsed(ms, rest)
  {
    NextMember(fmt, inner);
    ParseMore(s, ms[0], after, ms[1..], rest);
    assert ms == [ms[0]] + ms[1..];
  }

  lemma ParseLast(s: string, m: Member, after: string, rest: string)
    requires ParseMember(s) == Parsed(m, after)
    requires var r := Skip(after); r != "" && r[0] == '}' && r[1..] == rest
    ensures ParseMembers(s) == Parsed([m], rest)
  {
  }

  lemma ParseMore(s: string, m: Member, after: string, ms: seq<Member>, rest: string)
    requires ParseMember(s) == Parsed(m, after)
    requires var r := Skip(after); r != "" && r[0] == ',' && ParseMembers(r[1..]) == Parsed(ms, rest)
    ensures ParseMembers(s) == Parsed([m] + ms, rest)
  {
  }

  lemma LastMember(m: Member, fmt: bool, close: string, rest: string)
    requires Skip(close) == "}" + rest
    ensures var r := Skip(Opt(false, ",") + (Opt(fmt, "\n") + close)); r != "" && r[0] == '}' && r[1..] == rest
  {
    assert Opt(false, ",") + (Opt(fmt, "\n") + close) == Opt(fmt, "\n") + close;
    SkipOpt(fmt, '\n', close);
  }

  lemma NextMember(fmt: bool, inner: string)
    ensures var r := Skip(Opt(true, ",") + (Opt(fmt, "\n") + inner));
            r != "" && r[0] == ',' && ParseMembers(r[1..]) == ParseMembers(inner)
  {
    var tail := Opt(fmt, "\n") + inner;
    var r := Opt(true, ",") + tail;
    assert r[0] == ',' && r[1..] == tail;
    SkipOpt(fmt, '\n', inner);
    SameMembersParse(tail, inner);
  }

  lemma AfterMemberEnds(ms: seq<Member>, depth: nat, fmt: bool, close: string)
    requires ms != [] && Ends(close)
    ensures Ends(AfterMember(ms, depth, fmt, close))
  {
    if |ms| == 1 && !fmt {
      assert MembersText(ms[1..], depth, fmt) + close == close;
      assert AfterMember(ms, depth, fmt, close) == close;
    }
  }

  /** Leading white space does not matter to ParseMembers. */
  lemma SameMembersParse(a: string, b: string)
    requires Skip(a) == Skip(b)
    ensures ParseMembers(a) == ParseMembers(b)
  {
  }

  lemma ParseOpenBrace(body: string)
    requires Skip(body) != "" && Skip(body)[0] != '}'
    ensures ParseValue("{" + body)
         == match ParseMembers(body) case Fail => Fail case Parsed(ms, rest) => Parsed(Object(ms), rest)
  {
    var s := "{" + body;
    assert s[1..] == body;
    SkipTwice(body);
    SameMembersParse(body, Skip(body));
    ParseBrace(s, Skip(body));
  }

  lemma ParseBrace(s: string, r: string)
    requires s != "" && s[0] == '{' && Skip(s[1..]) == r && r != "" && r[0] != '}'
    ensures ParseValue(s)
         == match ParseMembers(r) case Fail => Fail case Parsed(ms, rest) => Parsed(Object(ms), rest)
  {
  }

  lemma MembersStart(ms: seq<Member>, depth: nat, fmt: bool, close: string)
    requires ms != []
    ensures var s := Skip(MembersText(ms, depth, fmt) + close); s != "" && s[0] == '\"'
  {
    var value := Text(ms[0].value, depth, fmt) + AfterMember(ms, depth, fmt, close);
    var quoted := StringText(ms[0].name) + (":" + (Opt(fmt, "\t") + value));
    MembersLayout(ms, depth, fmt, close);
    NameLayout(ms[0].name, depth, fmt, value);
    SkipOptTabs(fmt, depth, quoted);
    assert quoted[0] == '\"';
  }

  lemma {:induction false} ObjectRoundTrip(ms: seq<Member>, depth: nat, fmt: bool, rest: string)
    requires PrintableMembers(ms)
    ensures ParseValue(Text(Object(ms), depth, fmt) + rest) == Parsed(Object(ms), rest)
    decreases ms, 2
  {
    if ms == [] {
      EmptyObjectRoundTrip(depth, fmt, rest);
    } else {
      var close := Opt(fmt, Tabs(depth)) + ("}" + rest);
      ObjectParses(ms, depth, fmt, rest, close);
      CloseIs(depth, fmt, rest);
      MembersRoundTrip(ms, depth + 1, fmt, close, rest);
    }
  }

  /** An object with members is parsed as its members are. */
  lemma ObjectParses(ms: seq<Member>, depth: nat, fmt: bool, rest: string, close: string)
    requires ms != [] && close == Opt(fmt, Tabs(depth)) + ("}" + rest)
    ensures ParseValue(Text(Object(ms), depth, fmt) + rest)
         == match ParseMembers(MembersText(ms, depth + 1, fmt) + close)
            case Fail => Fail
            case Parsed(ns, r) => Parsed(Object(ns), r)
  {
    var inner := MembersText(ms, depth + 1, fmt) + close;
    ObjectLayout(ms, depth, fmt, rest);
    MembersStart(ms, depth + 1, fmt, close);
    SkipOpt(fmt, '\n', inner);
    ParseOpenBrace(Opt(fmt, "\n") + inner);
    SameMembersParse(Opt(fmt, "\n") + inner, inner);
  }

  lemma CloseIs(depth: nat, fmt: bool, rest: string)
    ensures var close := Opt(fmt, Tabs(depth)) + ("}" + rest); Skip(close) == "}" + rest && Ends(close)
  {
    SkipOptTabs(fmt, depth, "}" + rest);
  }

  lemma EmptyObjectRoundTrip(depth: nat, fmt: bool, rest: string)
    ensures ParseValue(Text(Object([]), depth, fmt) + rest) == Parsed(Object([]), rest)
  {
    var w := Opt(fmt, "\n" + Tabs(depth - 1));
    var close := "}" + rest;
    BracesLayout(w, rest);
    if fmt {
      Assoc("\n", Tabs(depth - 1), close);
      SkipOne('\n', Tabs(depth - 1) + close);
      SkipTabs(depth - 1, close);
    } else {
      assert w + close == close;
    }
    assert Skip(close) == close && close[1..] == rest;
    ParseEmptyBraces("{" + w + "}" + rest, close, rest);
  }

  lemma BracesLayout(w: string, rest: string)
    ensures ("{" + w + "}" + rest)[0] == '{' && ("{" + w + "}" + rest)[1..] == w + ("}" + rest)
  {
  }

  lemma ParseEmptyBraces(s: string, close: string, rest: string)
    requires s != "" && s[0] == '{' && Skip(s[1..]) == close
    requires close != "" && close[0] == '}' && close[1..] == rest
    ensures ParseValue(s) == Parsed(Object([]), rest)
  {
  }

  /** Parsing the text of a printable tree, in either layout, returns the tree and
      consumes all of the text, with or without the terminator check. */
  lemma ParseUndoesPrint(t: Json, fmt: bool, requireNullTerminated: bool)
    requires Printable(t)
    ensures Parse(Text(t, 0, fmt), requireNullTerminated) == Parsed(t, "")
  {
    ValueRoundTrip(t, 0, fmt, "");
    SkipText(t, 0, fmt, "");
    assert Text(t, 0, fmt) + "" == Text(t, 0, fmt);
  }

  // ----- escapes of arbitrary code points

  predicate ScalarValue(cp: nat) {
    0 < cp < 0x11_0000 && !(0xD800 <= cp <= 0xDFFF)
  }

  /** `c` is hexadecimal digit `d`, in either case. */
  predicate IsHexDigit(c: char, d: nat) {
    d < 16 && (c == "0123456789abcdef"[d] || c == "0123456789ABCDEF"[d])
  }

  lemma HexValIs(c: char)
    ensures forall d: nat :: HexVal(c) == d <==> IsHexDigit(c, d)
    ensures HexVal(c) == -1 <==> forall d: nat :: !IsHexDigit(c, d)
  {
    if HexVal(c) >= 0 { assert IsHexDigit(c, HexVal(c)); }
  }

  /** The printer's digits are the lower-case ones. */
  lemma HexDigitIs(d: nat)
    requires d < 16
    ensures HexDigit(d) == "0123456789abcdef"[d]
  {
  }

  /** The four digits of a number, each in either case. */
  predicate Spells(h: string, v: nat) {
    && |h| == 4 && v < 0x1_0000
    && IsHexDigit(h[0], v / 4096) && IsHexDigit(h[1], v / 256 % 16)
    && IsHexDigit(h[2], v / 16 % 16) && IsHexDigit(h[3], v % 16)
  }

  lemma HexSplit(v: nat)
    requires v < 0x1_0000
    ensures (((v / 4096) * 16 + v / 256 % 16) * 16 + v / 16 % 16) * 16 + v % 16 == v
  {
    var a, b := v / 16, v / 256;
    assert a / 16 == b && b / 16 == v / 4096;
    assert v == a * 16 + v % 16 && a == b * 16 + a % 16 && b == (b / 16) * 16 + b % 16;
  }

  /** Four digits, however written, read back. */
  lemma Hex4RoundTrip(h: string, v: nat, tail: string)
    requires Spells(h, v)
    ensures Hex4(h + tail) == v
  {
    var s := h + tail;
    HexValIs(h[0]);
    HexValIs(h[1]);
    HexValIs(h[2]);
    HexValIs(h[3]);
    assert HexVal(s[0]) == v / 4096 && HexVal(s[1]) == v / 256 % 16;
    assert HexVal(s[2]) == v / 16 % 16 && HexVal(s[3]) == v % 16;
    HexSplit(v);
  }

  /** Anything else among the four counts as 0. */
  lemma NoHex4(h: string, i: nat, tail: string)
    requires |h| == 4 && i < 4 && forall d: nat :: !IsHexDigit(h[i], d)
    ensures Hex4(h + tail) == 0
  {
    HexValIs(h[i]);
    assert (h + tail)[i] == h[i];
  }

  /** What follows the first "\\u" of the escape of a code point: one unit, or a surrogate pair
      (section 7 of RFC 8259). */
  predicate Escapes(text: string, cp: nat)
    requires ScalarValue(cp)
  {
    if cp < 0x1_0000 then Spells(text, cp)
    else
      var x := cp - 0x1_0000;
      |text| == 10 && Spells(text[..4], 0xD800 + x / 0x400) && text[4..6] == "\\u"
      && Spells(text[6..], 0xDC00 + x % 0x400)
  }

  lemma LowTenBits(q: nat)
    requires q < 0x400
    ensures (0xD800 + q) % 0x400 == q && (0xDC00 + q) % 0x400 == q
  {
    assert 0xD800 + q == 54 * 0x400 + q && 0xDC00 + q == 55 * 0x400 + q;
  }

  lemma PairLayout(a: string, b: string, tail: string)
    requires |a| == 4 && |b| == 4
    ensures var s := a + "\\u" + b + tail;
            && s == a + ("\\u" + (b + tail)) && |s| >= 10
            && s[4] == '\\' && s[5] == 'u' && s[6..] == b + tail
  {
  }

  lemma PairDecodes(a: string, b: string, q: nat, r: nat, tail: string)
    requires q < 0x400 && r < 0x400 && |a| == 4 && |b| == 4 && Hex4(a) == 0xD800 + q && Hex4(b) == 0xDC00 + r
    ensures ParseUnicode(a + "\\u" + b + tail) == Some((Utf8(0x1_0000 + q * 0x400 + r), 10))
  {
    PairLayout(a, b, tail);
    HexOf(a, "\\u" + (b + tail));
    HexOf(b, tail);
    LowTenBits(q);
    LowTenBits(r);
  }

  /** Every scalar value except NUL, escaped with digits of either case, parses to its UTF-8
      encoding. */
  lemma EscapeDecodes(text: string, cp: nat, tail: string)
    requires ScalarValue(cp) && Escapes(text, cp)
    ensures ParseUnicode(text + tail) == Some((Utf8(cp), |text|))
  {
    if cp < 0x1_0000 {
      Hex4RoundTrip(text, cp, tail);
    } else {
      var q, r := (cp - 0x1_0000) / 0x400, (cp - 0x1_0000) % 0x400;
      assert cp == 0x1_0000 + q * 0x400 + r;
      PairEscape(text, q, r, tail);
    }
  }

  lemma PairEscape(text: string, q: nat, r: nat, tail: string)
    requires q < 0x400 && r < 0x400 && |text| == 10 && text[4..6] == "\\u"
    requires Spells(text[..4], 0xD800 + q) && Spells(text[6..], 0xDC00 + r)
    ensures ParseUnicode(text + tail) == Some((Utf8(0x1_0000 + q * 0x400 + r), 10))
  {
    assert text == text[..4] + "\\u" + text[6..];
    SpelledHex(text[..4], 0xD800 + q);
    SpelledHex(text[6..], 0xDC00 + r);
    PairDecodes(text[..4], text[6..], q, r, tail);
  }

  lemma SpelledHex(h: string, v: nat)
    requires Spells(h, v)
    ensures Hex4(h) == v
  {
    Hex4RoundTrip(h, v, "");
    assert h + "" == h;
  }

  // ----- escapes that stand for nothing

  /** The escape of NUL, of a low surrogate and of anything that is no number is dropped. */
  lemma UnitDropped(h: string, tail: string)
    requires |h| == 4
    requires Hex4(h) == 0 || 0xDC00 <= Hex4(h) <= 0xDFFF
    ensures ParseUnicode(h + tail) == Some(("", 4))
    ensures Unescape("\\u" + h + tail) == Unescape(tail)
  {
    HexOf(h, tail);
    DropsEscape(h, tail, 4);
    assert (h + tail)[4..] == tail;
  }

  /** A high surrogate without another escape behind it is dropped. */
  lemma HighDropped(h: string, tail: string)
    requires |h| == 4 && 0xD800 <= Hex4(h) <= 0xDBFF && !("\\u" <= tail)
    ensures Unescape("\\u" + h + tail) == Unescape(tail)
  {
    HexOf(h, tail);
    if |tail| >= 2 { assert tail[..2] == [tail[0], tail[1]]; }
    DropsEscape(h, tail, 4);
    assert (h + tail)[4..] == tail;
  }

  /** With an escape behind it that is no low surrogate both are dropped. */
  lemma PairDropped(h: string, g: string, tail: string)
    requires |h| == 4 && |g| == 4 && 0xD800 <= Hex4(h) <= 0xDBFF && !(0xDC00 <= Hex4(g) <= 0xDFFF)
    ensures Unescape("\\u" + h + ("\\u" + g + tail)) == Unescape(tail)
  {
    var more := "\\u" + g + tail;
    PairLayout(h, g, tail);
    HexOf(h, more);
    HexOf(g, tail);
    assert (h + more)[6..] == g + tail && (h + more)[4] == '\\' && (h + more)[5] == 'u';
    DropsEscape(h, more, 10);
    assert (h + more)[10..] == tail;
  }

  lemma HexOf(h: string, tail: string)
    requires |h| == 4
    ensures Hex4(h + tail) == Hex4(h)
  {
  }

  lemma DropsEscape(h: string, tail: string, k: nat)
    requires ParseUnicode(h + tail) == Some(("", k)) && k <= |h + tail|
    ensures Unescape("\\u" + h + tail) == Unescape((h + tail)[k..])
  {
    var s := "\\u" + h + tail;
    assert s[2..] == h + tail && s[2 + k..] == (h + tail)[k..];
    var r := Unescape((h + tail)[k..]);
    if r.Parsed? { assert "" + r.value == r.value; }
  }

  /** The six payload bits of a continuation byte. */
  function Tail(c: char): nat {
    c as int % 64
  }

  /** UTF-8 decoding by section 3 of RFC 3629: the sequence at the front of `s`. */
  function DecodeUtf8(s: string): Option<nat> {
    if |s| >= 1 && s[0] as int < 0x80 then Some(s[0] as int)
    else if |s| >= 2 && 0xC0 <= s[0] as int < 0xE0 then Some((s[0] as int - 0xC0) * 64 + Tail(s[1]))
    else if |s| >= 3 && 0xE0 <= s[0] as int < 0xF0 then Some(((s[0] as int - 0xE0) * 64 + Tail(s[1])) * 64 + Tail(s[2]))
    else if |s| >= 4 && 0xF0 <= s[0] as int < 0xF8 then
      Some((((s[0] as int - 0xF0) * 64 + Tail(s[1])) * 64 + Tail(s[2])) * 64 + Tail(s[3]))
    else None
  }

  lemma TailOf(x: nat)
    requires x < 64
    ensures Tail((0x80 + x) as char) == x
  {
  }

  lemma SixBits(cp: nat)
    ensures cp == (cp / 64) * 64 + cp % 64
    ensures cp == ((cp / 4096) * 64 + cp / 64 % 64) * 64 + cp % 64
    ensures cp == (((cp / 262144) * 64 + cp / 4096 % 64) * 64 + cp / 64 % 64) * 64 + cp % 64
  {
    var a, b := cp / 64, cp / 4096;
    assert a / 64 == b && b / 64 == cp / 262144;
    assert a == b * 64 + a % 64 && b == (b / 64) * 64 + b % 64;
  }

  lemma Decode2(a: nat, b: nat)
    requires a < 32 && b < 64
    ensures DecodeUtf8([(0xC0 + a) as char, (0x80 + b) as char]) == Some(a * 64 + b)
  {
    TailOf(b);
  }

  lemma Decode3(a: nat, b: nat, c: nat)
    requires a < 16 && b < 64 && c < 64
    ensures DecodeUtf8([(0xE0 + a) as char, (0x80 + b) as char, (0x80 + c) as char]) == Some((a * 64 + b) * 64 + c)
  {
    TailOf(b);
    TailOf(c);
  }

  lemma Decode4(a: nat, b: nat, c: nat, d: nat)
    requires a < 8 && b < 64 && c < 64 && d < 64
    ensures DecodeUtf8([(0xF0 + a) as char, (0x80 + b) as char, (0x80 + c) as char, (0x80 + d) as char])
         == Some(((a * 64 + b) * 64 + c) * 64 + d)
  {
    TailOf(b);
    TailOf(c);
    TailOf(d);
  }

  /** The bytes produced decode to the code point. */
  lemma Utf8RoundTrip(cp: nat)
    requires cp < 0x11_0000
    ensures DecodeUtf8(Utf8(cp)) == Some(cp)
  {
    SixBits(cp);
    if cp < 0x80 {
    } else if cp < 0x800 {
      Decode2(cp / 64, cp % 64);
    } else if cp < 0x1_0000 {
      Decode3(cp / 4096, cp / 64 % 64, cp % 64);
    } else {
      Decode4(cp / 262144, cp / 4096 % 64, cp / 64 % 64, cp % 64);
    }
  }
}
