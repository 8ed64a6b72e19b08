/** The text of a JSON tree, formatted or not, as a function of the tree alone. */
module JsonText {
  import opened Seqs
  import opened CString
  import opened CJson

  const INT_MAX := 0x7fff_ffff
  const INT_MIN := -0x8000_0000

  function HexDigit(d: nat): char
    requires d < 16
  {
    if d < 10 then DigitChar(d) else ('a' as int + d - 10) as char
  }

  /** One character of a string literal; control characters become \u00xx. */
  function EscapeChar(c: char): string {
    if c as int > 31 && c != '\"' && c != '\\' then [c]
    else if c == '\\' then "\\\\"
    else if c == '\"' then "\\\""
    else if c as int == 8 then "\\b"
    else if c as int == 12 then "\\f"
    else if c == '\n' then "\\n"
    else if c == '\r' then "\\r"
    else if c == '\t' then "\\t"
    else "\\u00" + [HexDigit(c as int / 16), HexDigit(c as int % 16)]
  }

  function Escape(s: string): string {
    if s == "" then "" else EscapeChar(s[0]) + Escape(s[1..])
  }

  function StringText(s: string): string {
    "\"" + Escape(s) + "\""
  }

  function Tabs(n: int): (r: string)
    ensures |r| == if n > 0 then n else 0
    ensures forall i :: 0 <= i < |r| ==> r[i] == '\t'
    decreases if n > 0 then n else 0
  {
    if n <= 0 then "" else Tabs(n - 1) + "\t"
  }

  /** "%d" of an integral number; zero is special-cased by the printer. */
  function NumberText(i: int, d: real): string {
    if d == 0.0 then "0" else DecimalInt(i)
  }

  function Opt(b: bool, s: string): string {
    if b then s else ""
  }

  function Text(t: Json, depth: nat, fmt: bool): string {
    match t
    case Null => "null"
    case False => "false"
    case True => "true"
    case Number(i, d) => NumberText(i, d)
    case String(s) => StringText(s)
    case Array(items) => if items == [] then "[]" else "[" + ItemsText(items, depth + 1, fmt) + "]"
    case Object(ms) =>
      if ms == [] then "{" + Opt(fmt, "\n" + Tabs(depth - 1)) + "}"
      else "{" + Opt(fmt, "\n") + MembersText(ms, depth + 1, fmt) + Opt(fmt, Tabs(depth)) + "}"
  }

  function Comma(fmt: bool): string {
    if fmt then ", " else ","
  }

  function ItemsText(items: seq<Json>, depth: nat, fmt: bool): string {
    if items == [] then ""
    else Text(items[0], depth, fmt) + Opt(|items| > 1, Comma(fmt)) + ItemsText(items[1..], depth, fmt)
  }

  /** The part of a member before its value. */
  function NameText(name: string, depth: nat, fmt: bool): string {
    Opt(fmt, Tabs(depth)) + StringText(name) + ":" + Opt(fmt, "\t")
  }

  function MembersText(ms: seq<Member>, depth: nat, fmt: bool): string {
    if ms == [] then ""
    else NameText(ms[0].name, depth, fmt) + Text(ms[0].value, depth, fmt)
         + Opt(|ms| > 1, ",") + Opt(fmt, "\n") + MembersText(ms[1..], depth, fmt)
  }

  /** Trees the printers handle exactly: C strings and integral 32-bit numbers. */
  predicate Printable(t: Json) {
    match t
    case Number(i, d) => INT_MIN <= i <= INT_MAX && d == i as real
    case String(s) => NulFree(s)
    case Array(items) => forall i :: 0 <= i < |items| ==> Printable(items[i])
    case Object(ms) => forall i :: 0 <= i < |ms| ==> NulFree(ms[i].name) && Printable(ms[i].value)
    case _ => true
  }

  predicate PrintableItems(items: seq<Json>) {
    forall i :: 0 <= i < |items| ==> Printable(items[i])
  }

  predicate PrintableMembers(ms: seq<Member>) {
    forall i :: 0 <= i < |ms| ==> NulFree(ms[i].name) && Printable(ms[i].value)
  }

  lemma NulFreeConcat(a: string, b: string)
    requires NulFree(a) && NulFree(b)
    ensures NulFree(a + b)
  {
  }

  lemma {:induction false} EscapeNulFree(s: string)
    requires NulFree(s)
    ensures NulFree(Escape(s))
  {
    if s != "" {
      EscapeNulFree(s[1..]);
      NulFreeConcat(EscapeChar(s[0]), Escape(s[1..]));
    }
  }

  lemma NameNulFree(name: string, depth: nat, fmt: bool)
    requires NulFree(name)
    ensures NulFree(NameText(name, depth, fmt)) && NulFree(StringText(name))
  {
    EscapeNulFree(name);
  }

  /** Printed text holds no terminator, so strlen sees all of it. */
  lemma {:induction false} TextNulFree(t: Json, depth: nat, fmt: bool)
    requires Printable(t)
    ensures NulFree(Text(t, depth, fmt))
    decreases t
  {
    match t
    case String(s) => NameNulFree(s, 0, false);
    case Array(items) =>
      ItemsNulFree(items, depth + 1, fmt);
      NulFreeConcat("[", ItemsText(items, depth + 1, fmt));
    case Object(ms) =>
      MembersNulFree(ms, depth + 1, fmt);
      ObjectNulFree(ms, depth, fmt);
    case _ =>
  }

  lemma ObjectNulFree(ms: seq<Member>, depth: nat, fmt: bool)
    requires NulFree(MembersText(ms, depth + 1, fmt))
    ensures NulFree(Text(Object(ms), depth, fmt))
  {
    var body, tail := MembersText(ms, depth + 1, fmt), Opt(fmt, Tabs(depth)) + "}";
    if ms != [] {
      NulFreeConcat("{" + Opt(fmt, "\n"), body);
      NulFreeConcat("{" + Opt(fmt, "\n") + body, tail);
      Assoc("{" + Opt(fmt, "\n") + body, Opt(fmt, Tabs(depth)), "}");
    }
  }

  lemma {:induction false} ItemsNulFree(items: seq<Json>, depth: nat, fmt: bool)
    requires PrintableItems(items)
    ensures NulFree(ItemsText(items, depth, fmt))
    decreases items
  {
    if items != [] {
      TextNulFree(items[0], depth, fmt);
      ItemsNulFree(items[1..], depth, fmt);
      NulFreeConcat(Text(items[0], depth, fmt) + Opt(|items| > 1, Comma(fmt)), ItemsText(items[1..], depth, fmt));
    }
  }

  lemma {:induction false} MembersNulFree(ms: seq<Member>, depth: nat, fmt: bool)
    requires PrintableMembers(ms)
    ensures NulFree(MembersText(ms, depth, fmt))
    decreases ms
  {
    if ms != [] {
      NameNulFree(ms[0].name, depth, fmt);
      TextNulFree(ms[0].value, depth, fmt);
      MembersNulFree(ms[1..], depth, fmt);
      var head := NameText(ms[0].name, depth, fmt) + Text(ms[0].value, depth, fmt);
      NulFreeConcat(NameText(ms[0].name, depth, fmt), Text(ms[0].value, depth, fmt));
      NulFreeConcat(head + Opt(|ms| > 1, ",") + Opt(fmt, "\n"), MembersText(ms[1..], depth, fmt));
    }
  }

  // ----- the same text, associated to the right

  /** What follows the first item. */
  function AfterItem(items: seq<Json>, depth: nat, fmt: bool, close: string): string
    requires items != []
  {
    if |items| == 1 then close else Comma(fmt) + (ItemsText(items[1..], depth, fmt) + close)
  }

  lemma ItemsLayout(items: seq<Json>, depth: nat, fmt: bool, close: string)
    requires items != []
    ensures ItemsText(items, depth, fmt) + close == Text(items[0], depth, fmt) + AfterItem(items, depth, fmt, close)
  {
    var head, sep, tail := Text(items[0], depth, fmt), Opt(|items| > 1, Comma(fmt)), ItemsText(items[1..], depth, fmt);
    Assoc(head + sep, tail, close);
    Assoc(head, sep, tail + close);
    if |items| == 1 {
      assert tail == "" && "" + close == close;
    }
  }

  /** What follows the opening quote's name: colon, optional tab, the value text. */
  lemma NameLayout(name: string, depth: nat, fmt: bool, x: string)
    ensures NameText(name, depth, fmt) + x == Opt(fmt, Tabs(depth)) + (StringText(name) + (":" + (Opt(fmt, "\t") + x)))
  {
    var t, n, o := Opt(fmt, Tabs(depth)), StringText(name), Opt(fmt, "\t");
    Assoc(t + n + ":", o, x);
    Assoc(t + n, ":", o + x);
    Assoc(t, n, ":" + (o + x));
  }

  function AfterMember(ms: seq<Member>, depth: nat, fmt: bool, close: string): string
    requires ms != []
  {
    Opt(|ms| > 1, ",") + (Opt(fmt, "\n") + (MembersText(ms[1..], depth, fmt) + close))
  }

  lemma MembersLayout(ms: seq<Member>, depth: nat, fmt: bool, close: string)
    requires ms != []
    ensures MembersText(ms, depth, fmt) + close
         == NameText(ms[0].name, depth, fmt) + (Text(ms[0].value, depth, fmt) + AfterMember(ms, depth, fmt, close))
  {
    var n, v, c, l, tail := NameText(ms[0].name, depth, fmt), Text(ms[0].value, depth, fmt),
        Opt(|ms| > 1, ","), Opt(fmt, "\n"), MembersText(ms[1..], depth, fmt);
    Assoc(n + v + c + l, tail, close);
    Assoc(n + v + c, l, tail + close);
    Assoc(n + v, c, l + (tail + close));
    Assoc(n, v, c + (l + (tail + close)));
  }

  lemma ArrayLayout(items: seq<Json>, depth: nat, fmt: bool, rest: string)
    requires items != []
    ensures Text(Array(items), depth, fmt) + rest == "[" + (ItemsText(items, depth + 1, fmt) + ("]" + rest))
  {
    var body := ItemsText(items, depth + 1, fmt);
    Assoc("[" + body, "]", rest);
    Assoc("[", body, "]" + rest);
  }

  lemma ObjectLayout(ms: seq<Member>, depth: nat, fmt: bool, rest: string)
    requires ms != []
    ensures Text(Object(ms), depth, fmt) + rest
         == "{" + (Opt(fmt, "\n") + (MembersText(ms, depth + 1, fmt) + (Opt(fmt, Tabs(depth)) + ("}" + rest))))
  {
    var l, body, t := Opt(fmt, "\n"), MembersText(ms, depth + 1, fmt), Opt(fmt, Tabs(depth));
    Assoc("{" + l + body + t, "}", rest);
    Assoc("{" + l + body, t, "}" + rest);
    Assoc("{" + l, body, t + ("}" + rest));
    Assoc("{", l, body + (t + ("}" + rest)));
  }

  // ----- what the text looks like

  /** Quotes, backslashes and control characters are escaped, nothing else. */
  lemma EscapeIs(c: char)
    ensures c !in "\"\\" && c as int >= 32 ==> EscapeChar(c) == [c]
    ensures EscapeChar('\"') == ['\\', '\"'] && EscapeChar('\\') == ['\\', '\\']
    ensures EscapeChar(8 as char) == ['\\', 'b'] && EscapeChar(9 as char) == ['\\', 't']
    ensures EscapeChar(10 as char) == ['\\', 'n'] && EscapeChar(12 as char) == ['\\', 'f']
    ensures EscapeChar(13 as char) == ['\\', 'r']
    ensures c as int < 32 && c as int !in {8, 9, 10, 12, 13} ==>
              EscapeChar(c) == "\\u00" + [if c as int < 16 then '0' else '1', "0123456789abcdef"[c as int % 16]]
  {
  }

  function Join(parts: seq<string>, sep: string): string {
    if parts == [] then "" else if |parts| == 1 then parts[0] else parts[0] + sep + Join(parts[1..], sep)
  }

  function Texts(items: seq<Json>, depth: nat, fmt: bool): (r: seq<string>)
    ensures |r| == |items| && forall i :: 0 <= i < |r| ==> r[i] == Text(items[i], depth, fmt)
  {
    seq(|items|, i requires 0 <= i < |items| => Text(items[i], depth, fmt))
  }

  /** A member on a line of its own, or with nothing around it. */
  function Line(m: Member, depth: nat, fmt: bool): string {
    if fmt then Tabs(depth) + ("\"" + Escape(m.name) + "\"") + ":\t" + Text(m.value, depth, true)
    else "\"" + Escape(m.name) + "\":" + Text(m.value, depth, false)
  }

  function Lines(ms: seq<Member>, depth: nat, fmt: bool): (r: seq<string>)
    ensures |r| == |ms| && forall i :: 0 <= i < |r| ==> r[i] == Line(ms[i], depth, fmt)
  {
    seq(|ms|, i requires 0 <= i < |ms| => Line(ms[i], depth, fmt))
  }

  lemma {:induction false} ItemsJoined(items: seq<Json>, depth: nat, fmt: bool)
    ensures ItemsText(items, depth, fmt) == Join(Texts(items, depth, fmt), if fmt then ", " else ",")
  {
    if |items| > 1 {
      assert Texts(items, depth, fmt)[1..] == Texts(items[1..], depth, fmt);
      ItemsJoined(items[1..], depth, fmt);
    }
  }

  lemma LineIs(m: Member, depth: nat, fmt: bool)
    ensures NameText(m.name, depth, fmt) + Text(m.value, depth, fmt) == Line(m, depth, fmt)
  {
    var t, q, v := Tabs(depth), "\"" + Escape(m.name) + "\"", Text(m.value, depth, fmt);
    if fmt {
      assert t + q + ":" + "\t" == t + q + ":\t";
    } else {
      assert "" + q + ":" + "" == "\"" + Escape(m.name) + "\":";
    }
  }

  lemma MembersNext(ms: seq<Member>, depth: nat, fmt: bool)
    requires ms != []
    ensures MembersText(ms, depth, fmt)
         == Line(ms[0], depth, fmt) + Opt(|ms| > 1, ",") + Opt(fmt, "\n") + MembersText(ms[1..], depth, fmt)
  {
    LineIs(ms[0], depth, fmt);
  }

  lemma NextLine(line: string, rest: string)
    ensures line + "," + "\n" + (rest + "\n") == line + ",\n" + rest + "\n"
    ensures line + "," + "" + rest == line + "," + rest
    ensures line + "" + "\n" + "" == line + "\n" && line + "" + "" + "" == line
  {
  }

  lemma {:induction false} MembersJoined(ms: seq<Member>, depth: nat)
    requires ms != []
    ensures MembersText(ms, depth, true) == Join(Lines(ms, depth, true), ",\n") + "\n"
    ensures MembersText(ms, depth, false) == Join(Lines(ms, depth, false), ",")
  {
    MembersNext(ms, depth, true);
    MembersNext(ms, depth, false);
    if |ms| == 1 {
      NextLine(Line(ms[0], depth, true), "");
      NextLine(Line(ms[0], depth, false), "");
    } else {
      assert Lines(ms, depth, true)[1..] == Lines(ms[1..], depth, true);
      assert Lines(ms, depth, false)[1..] == Lines(ms[1..], depth, false);
      MembersJoined(ms[1..], depth);
      NextLine(Line(ms[0], depth, true), Join(Lines(ms[1..], depth, true), ",\n"));
      NextLine(Line(ms[0], depth, false), Join(Lines(ms[1..], depth, false), ","));
    }
  }

  lemma ArrayText(items: seq<Json>, depth: nat, fmt: bool)
    ensures Text(Array(items), depth, fmt) == "[" + Join(Texts(items, depth + 1, fmt), if fmt then ", " else ",") + "]"
  {
    ItemsJoined(items, depth + 1, fmt);
    if items == [] { assert "[" + "" + "]" == "[]"; }
  }

  lemma Braces(a: string, b: string)
    ensures "{" + ("\n" + a) + "}" == "{\n" + a + "}" && "{" + "" + "}" == "{}"
    ensures "{" + "\n" + (a + "\n") + b + "}" == "{\n" + a + "\n" + b + "}"
    ensures "{" + "" + a + "" + "}" == "{" + a + "}"
  {
    assert "{" + "\n" == "{\n";
  }

  lemma ObjectText(ms: seq<Member>, depth: nat)
    ensures Text(Object(ms), depth, false) == "{" + Join(Lines(ms, depth + 1, false), ",") + "}"
    ensures ms == [] ==> Text(Object(ms), depth, true) == "{\n" + Tabs(depth - 1) + "}"
    ensures ms != [] ==>
              Text(Object(ms), depth, true)
              == "{\n" + Join(Lines(ms, depth + 1, true), ",\n") + "\n" + Tabs(depth) + "}"
  {
    if ms == [] {
      Braces(Tabs(depth - 1), "");
    } else {
      MembersJoined(ms, depth + 1);
      Braces(Join(Lines(ms, depth + 1, true), ",\n"), Tabs(depth));
      Braces(Join(Lines(ms, depth + 1, false), ","), "");
    }
  }
}
