/** The two-pass printer: sizes are added up, a buffer of that size is allocated and the
    text composed in it. Every routine leaves exactly `Text` of its tree, terminated. */
module PrintAlloc {
  import opened Seqs
  import opened CString
  import opened CJson
  import opened JsonText

  /** The buffer holds the C string `s`. */
  ghost predicate Holds(buf: array<char>, s: string)
    reads buf
  {
    |s| < buf.Length && buf[..|s|] == s && buf[|s|] == '\0'
  }

  /** Writes the next piece of `full`; what was written before stays. */
  method Emit(buf: array<char>, k: nat, piece: string, ghost rest: string, ghost full: string) returns (k': nat)
    requires k <= buf.Length && buf[..k] + (piece + rest) == full && |full| < buf.Length
    modifies buf
    ensures k' == k + |piece| <= |full| && buf[..k'] + rest == full
  {
    ghost var done := buf[..k];
    for i := 0 to |piece|
      invariant buf[..k + i] == done + piece[..i]
    {
      buf[k + i] := piece[i];
      assert piece[..i + 1] == piece[..i] + [piece[i]];
    }
    k' := k + |piece|;
    assert piece[..|piece|] == piece;
    Assoc(done, piece, rest);
  }

  /** The same, and a terminator that the next piece will overwrite. */
  method EmitTerminated(buf: array<char>, k: nat, piece: string, ghost rest: string,
                        ghost full: string) returns (k': nat)
    requires k <= buf.Length && buf[..k] + (piece + rest) == full && |full| < buf.Length
    modifies buf
    ensures k' == k + |piece| <= |full| && buf[..k'] + rest == full
  {
    k' := Emit(buf, k, piece, rest, full);
    ghost var done := buf[..k'];
    buf[k'] := '\0';
    assert buf[..k'] == done;
  }

  /** Terminates a finished text. */
  method Finish(buf: array<char>, k: nat, ghost full: string)
    requires k <= buf.Length && buf[..k] + "" == full && |full| < buf.Length
    modifies buf
    ensures Holds(buf, full)
  {
    buf[k] := '\0';
    assert buf[..k] == full;
  }

  /** malloc and strcpy of a whole text. */
  method Fresh(size: nat, s: string) returns (out: array<char>)
    requires |s| < size
    ensures fresh(out) && Holds(out, s)
  {
    out := new char[size];
    assert out[..0] + (s + "") == s;
    var k := Emit(out, 0, s, "", s);
    Finish(out, k, s);
  }

  /** strlen of a held string, and the string itself. */
  method Contents(buf: array<char>, ghost s: string) returns (r: string)
    requires Holds(buf, s) && NulFree(s)
    ensures r == s
  {
    var len := 0;
    assert forall i :: 0 <= i < |s| ==> buf[i] == s[i];
    while buf[len] != '\0'
      invariant len <= |s|
      decreases |s| - len
    {
      len := len + 1;
    }
    r := buf[..len];
  }

  predicate NeedsEscape(c: char) {
    c as int < 32 || c == '\"' || c == '\\'
  }

  lemma {:induction false} NoEscape(s: string)
    requires forall i :: 0 <= i < |s| ==> !NeedsEscape(s[i])
    ensures Escape(s) == s
  {
    if s != "" {
      NoEscape(s[1..]);
      assert s == [s[0]] + s[1..];
    }
  }

  /** The scan for characters that need escaping. */
  method AnyEscapes(str: string) returns (flag: bool)
    ensures !flag ==> Escape(str) == str
  {
    flag := false;
    for ptr := 0 to |str|
      invariant !flag ==> forall i :: 0 <= i < ptr ==> !NeedsEscape(str[i])
    {
      flag := flag || NeedsEscape(str[ptr]);
    }
    if !flag { NoEscape(str); }
  }

  /** The length that print_string_ptr reserves, without quotes and terminator. */
  method StringLength(str: string, flag: bool) returns (len: nat)
    requires NulFree(str) && (!flag ==> Escape(str) == str)
    ensures len == |Escape(str)|
  {
    if !flag {
      return |str|;
    }
    len := EscapedLength(str);
  }

  /** The writing part of print_string_ptr, behind the first `k` characters of the buffer. */
  method WriteString(out: array<char>, k: nat, str: string, flag: bool)
    requires NulFree(str) && (!flag ==> Escape(str) == str) && k + |StringText(str)| < out.Length
    modifies out
    ensures out[..k + |StringText(str)|] == old(out[..k]) + StringText(str) && out[k + |StringText(str)|] == '\0'
  {
    ghost var full := out[..k] + StringText(str);
    assert StringText(str) == "\"" + (Escape(str) + "\"");
    var p := Emit(out, k, "\"", Escape(str) + "\"", full);
    if flag {
      p := WriteEscapes(out, p, str, full);
    } else {
      p := EmitTerminated(out, p, str, "\"", full);
    }
    assert "\"" + "" == "\"";
    p := Emit(out, p, "\"", "", full);
    Finish(out, p, full);
  }

  /** The escaping loop. */
  method WriteEscapes(out: array<char>, k: nat, str: string, ghost full: string) returns (k': nat)
    requires k <= out.Length && out[..k] + (Escape(str) + "\"") == full && |full| < out.Length
    modifies out
    ensures k' <= |full| && out[..k'] + "\"" == full
  {
    k' := k;
    assert str[0..] == str;
    for i := 0 to |str|
      invariant 0 <= k' <= |full| && out[..k'] + (Escape(str[i..]) + "\"") == full
    {
      assert str[i..][1..] == str[i + 1..];
      Assoc(EscapeChar(str[i]), Escape(str[i + 1..]), "\"");
      if str[i] as int > 31 && str[i] != '\"' && str[i] != '\\' {
        k' := Emit(out, k', [str[i]], Escape(str[i + 1..]) + "\"", full);
      } else {
        k' := EmitTerminated(out, k', EscapeChar(str[i]), Escape(str[i + 1..]) + "\"", full);
      }
    }
    assert Escape(str[|str|..]) + "\"" == "\"";
  }

  /** print_string_ptr without a buffer. */
  method PrintString(str: string) returns (out: array<char>)
    requires NulFree(str)
    ensures fresh(out) && Holds(out, StringText(str))
  {
    var flag := AnyEscapes(str);
    var len := StringLength(str, flag);
    out := new char[len + 3];
    ghost var none := out[..0];
    WriteString(out, 0, str, flag);
    assert none + StringText(str) == StringText(str);
  }

  /** The counting pass over a string with escapes. */
  method EscapedLength(str: string) returns (len: nat)
    requires NulFree(str)
    ensures len == |Escape(str)|
  {
    len := 0;
    assert str[0..] == str;
    for ptr := 0 to |str|
      invariant len + |Escape(str[ptr..])| == |Escape(str)|
    {
      assert str[ptr..][1..] == str[ptr + 1..];
      len := len + 1;
      var token := str[ptr];
      if token in "\"\\\n\r\t" || token as int == 8 || token as int == 12 {
        len := len + 1;
      } else if token as int < 32 {
        len := len + 5;
      }
    }
  }

  lemma {:induction false} DecimalLength(n: nat, k: nat, bound: nat)
    requires k >= 1 && n < bound && bound == Pow10Nat(k)
    ensures |Decimal(n)| <= k
    decreases k
  {
    if n >= 10 {
      assert k >= 2 by { assert Pow10Nat(1) == 10; }
      DecimalLength(n / 10, k - 1, Pow10Nat(k - 1));
    }
  }

  function Pow10Nat(k: nat): nat {
    if k == 0 then 1 else 10 * Pow10Nat(k - 1)
  }

  /** A 32-bit number prints in at most eleven characters. */
  lemma NumberLength(i: int, d: real)
    requires INT_MIN <= i <= INT_MAX
    ensures |NumberText(i, d)| <= 11
  {
    assert Pow10Nat(5) == 100000;
    assert Pow10Nat(10) == 10000000000;
    DecimalLength(if i < 0 then -i else i, 10, Pow10Nat(10));
  }

  /** Room the array printer allows for its entries. */
  function ItemsNeed(items: seq<Json>, depth: nat, fmt: bool): nat {
    if items == [] then 0
    else |Text(items[0], depth, fmt)| + 2 + (if fmt then 1 else 0) + ItemsNeed(items[1..], depth, fmt)
  }

  lemma {:induction false} ItemsFit(items: seq<Json>, depth: nat, fmt: bool)
    ensures |ItemsText(items, depth, fmt)| <= ItemsNeed(items, depth, fmt)
  {
    if items != [] { ItemsFit(items[1..], depth, fmt); }
  }

  /** The texts of the first members, as collected so far. */
  ghost predicate Collected(ms: seq<Member>, names: seq<string>, entries: seq<string>, depth: nat, fmt: bool) {
    |names| == |entries| <= |ms|
    && forall j :: 0 <= j < |names| ==>
         names[j] == StringText(ms[j].name) && entries[j] == Text(ms[j].value, depth, fmt)
  }

  /** Room the object printer allows for its members. */
  function MembersNeed(ms: seq<Member>, depth: nat, fmt: bool): nat {
    if ms == [] then 0
    else |Text(ms[0].value, depth, fmt)| + |StringText(ms[0].name)| + 2 + (if fmt then 2 + depth else 0)
         + MembersNeed(ms[1..], depth, fmt)
  }

  lemma CollectedMore(ms: seq<Member>, names: seq<string>, entries: seq<string>, name: string, entry: string,
                      depth: nat, fmt: bool)
    requires Collected(ms, names, entries, depth, fmt) && |names| < |ms|
    requires name == StringText(ms[|names|].name) && entry == Text(ms[|names|].value, depth, fmt)
    ensures Collected(ms, names + [name], entries + [entry], depth, fmt)
  {
  }

  lemma NextMemberNeed(ms: seq<Member>, i: nat, depth: nat, fmt: bool)
    requires i < |ms|
    ensures MembersNeed(ms[i..], depth, fmt)
         == |Text(ms[i].value, depth, fmt)| + |StringText(ms[i].name)| + 2 + (if fmt then 2 + depth else 0)
            + MembersNeed(ms[i + 1..], depth, fmt)
  {
    assert ms[i..][1..] == ms[i + 1..];
  }

  lemma {:induction false} MembersFit(ms: seq<Member>, depth: nat, fmt: bool)
    ensures |MembersText(ms, depth, fmt)| <= MembersNeed(ms, depth, fmt)
  {
    if ms != [] { MembersFit(ms[1..], depth, fmt); }
  }

  /** print_value without a buffer. */
  method PrintValue(t: Json, depth: nat, fmt: bool) returns (out: array<char>)
    requires Printable(t)
    ensures fresh(out) && Holds(out, Text(t, depth, fmt))
    decreases t
  {
    match t
    case Null => out := Fresh(5, "null");
    case False => out := Fresh(6, "false");
    case True => out := Fresh(5, "true");
    case Number(i, d) =>
      NumberLength(i, d);
      if d == 0.0 { out := Fresh(2, "0"); } else { out := Fresh(21, DecimalInt(i)); }
    case String(s) => out := PrintString(s);
    case Array(items) => out := PrintArray(items, depth, fmt);
    case Object(ms) => out := PrintObject(ms, depth, fmt);
  }

  /** print_array: entries first, then the composed text. */
  method PrintArray(items: seq<Json>, depth: nat, fmt: bool) returns (out: array<char>)
    requires PrintableItems(items)
    ensures fresh(out) && Holds(out, Text(Array(items), depth, fmt))
    decreases items, 1
  {
    if items == [] {
      out := Fresh(3, "[]");
      return;
    }
    var entries, len := PrintEntries(items, depth + 1, fmt, 5);
    ItemsFit(items, depth + 1, fmt);
    out := ComposeArray(items, entries, depth, fmt, len);
  }

  method PrintEntries(items: seq<Json>, depth: nat, fmt: bool, start: nat) returns (entries: seq<string>, len: nat)
    requires PrintableItems(items)
    ensures |entries| == |items| && forall j :: 0 <= j < |items| ==> entries[j] == Text(items[j], depth, fmt)
    ensures len == start + ItemsNeed(items, depth, fmt)
    decreases items, 0
  {
    entries, len := [], start;
    assert items[0..] == items;
    for i := 0 to |items|
      invariant |entries| == i && forall j :: 0 <= j < i ==> entries[j] == Text(items[j], depth, fmt)
      invariant len + ItemsNeed(items[i..], depth, fmt) == start + ItemsNeed(items, depth, fmt)
    {
      assert items[i..][1..] == items[i + 1..];
      var ret := PrintValue(items[i], depth, fmt);
      TextNulFree(items[i], depth, fmt);
      var entry := Contents(ret, Text(items[i], depth, fmt));
      entries := entries + [entry];
      len := len + |entry| + 2 + (if fmt then 1 else 0);
    }
  }

  method ComposeArray(items: seq<Json>, entries: seq<string>, depth: nat, fmt: bool,
                      len: nat) returns (out: array<char>)
    requires items != [] && |entries| == |items|
    requires forall j :: 0 <= j < |items| ==> entries[j] == Text(items[j], depth + 1, fmt)
    requires len >= |ItemsText(items, depth + 1, fmt)| + 5
    ensures fresh(out) && Holds(out, Text(Array(items), depth, fmt))
  {
    out := new char[len];
    ghost var full := Text(Array(items), depth, fmt);
    ghost var d := depth + 1;
    Assoc("[", ItemsText(items, d, fmt), "]");
    assert out[..0] + full == full && items[0..] == items;
    var k := EmitTerminated(out, 0, "[", ItemsText(items, d, fmt) + "]", full);
    for i := 0 to |items|
      invariant 0 <= k <= |full| && out[..k] + (ItemsText(items[i..], d, fmt) + "]") == full
    {
      ghost var rest := items[i..];
      ghost var tail := ItemsText(items[i + 1..], d, fmt) + "]";
      assert rest[1..] == items[i + 1..];
      ItemsLayout(rest, d, fmt, "]");
      if i == |items| - 1 { assert tail == "]"; }
      k := Emit(out, k, entries[i], AfterItem(rest, d, fmt, "]"), full);
      if i != |items| - 1 {
        k := EmitTerminated(out, k, Comma(fmt), tail, full);
      }
    }
    assert ItemsText(items[|items|..], d, fmt) + "]" == "]" + "";
    k := Emit(out, k, "]", "", full);
    Finish(out, k, full);
  }

  /** print_object. */
  method PrintObject(ms: seq<Member>, depth: nat, fmt: bool) returns (out: array<char>)
    requires PrintableMembers(ms)
    ensures fresh(out) && Holds(out, Text(Object(ms), depth, fmt))
    decreases ms, 1
  {
    if ms == [] {
      out := Fresh(if fmt then depth + 4 else 3, "{" + Opt(fmt, "\n" + Tabs(depth - 1)) + "}");
      return;
    }
    var names, entries, len := PrintMembers(ms, depth + 1, fmt, 7 + if fmt then depth + 1 else 0);
    MembersFit(ms, depth + 1, fmt);
    out := ComposeObject(ms, names, entries, depth, fmt, len);
  }

  method PrintMembers(ms: seq<Member>, depth: nat, fmt: bool, start: nat)
    returns (names: seq<string>, entries: seq<string>, len: nat)
    requires PrintableMembers(ms)
    ensures |names| == |ms| && Collected(ms, names, entries, depth, fmt)
    ensures len == start + MembersNeed(ms, depth, fmt)
    decreases ms, 0
  {
    names, entries, len := [], [], start;
    assert ms[0..] == ms;
    for i := 0 to |ms|
      invariant |names| == i && Collected(ms, names, entries, depth, fmt)
      invariant len + MembersNeed(ms[i..], depth, fmt) == start + MembersNeed(ms, depth, fmt)
    {
      NextMemberNeed(ms, i, depth, fmt);
      var name, entry := PrintMember(ms[i], depth, fmt);
      CollectedMore(ms, names, entries, name, entry, depth, fmt);
      names, entries := names + [name], entries + [entry];
      len := len + |entry| + |name| + 2 + (if fmt then 2 + depth else 0);
    }
  }

  method PrintMember(m: Member, depth: nat, fmt: bool) returns (name: string, entry: string)
    requires NulFree(m.name) && Printable(m.value)
    ensures name == StringText(m.name) && entry == Text(m.value, depth, fmt)
    decreases m
  {
    var str := PrintString(m.name);
    var ret := PrintValue(m.value, depth, fmt);
    NameNulFree(m.name, depth, fmt);
    TextNulFree(m.value, depth, fmt);
    name := Contents(str, StringText(m.name));
    entry := Contents(ret, Text(m.value, depth, fmt));
  }

  method ComposeObject(ms: seq<Member>, names: seq<string>, entries: seq<string>, depth: nat, fmt: bool, len: nat)
    returns (out: array<char>)
    requires ms != [] && |names| == |entries| == |ms|
    requires Collected(ms, names, entries, depth + 1, fmt)
    requires len >= |MembersText(ms, depth + 1, fmt)| + 7 + (if fmt then depth + 1 else 0)
    ensures fresh(out) && Holds(out, Text(Object(ms), depth, fmt))
  {
    out := new char[len];
    ghost var full := Text(Object(ms), depth, fmt);
    var d := depth + 1;
    ghost var close := Opt(fmt, Tabs(depth)) + ("}" + "");
    ObjectLayout(ms, depth, fmt, "");
    assert full + "" == full && out[..0] + full == full && ms[0..] == ms;
    var k := Emit(out, 0, "{", Opt(fmt, "\n") + (MembersText(ms, d, fmt) + close), full);
    k := EmitTerminated(out, k, Opt(fmt, "\n"), MembersText(ms, d, fmt) + close, full);
    for i := 0 to |ms|
      invariant 0 <= k <= |full| && out[..k] + (MembersText(ms[i..], d, fmt) + close) == full
    {
      k := ComposeMember(out, k, ms[i..], names[i], entries[i], i == |ms| - 1, d, fmt, close, full);
      assert ms[i..][1..] == ms[i + 1..];
    }
    assert MembersText(ms[|ms|..], d, fmt) + close == close;
    k := Emit(out, k, Opt(fmt, Tabs(depth)), "}" + "", full);
    k := Emit(out, k, "}", "", full);
    Finish(out, k, full);
  }

  /** Tabs, name, colon, value, comma, newline. */
  method ComposeMember(out: array<char>, k: nat, ghost rest: seq<Member>, name: string, entry: string, last: bool,
                       depth: nat, fmt: bool,
                       ghost close: string, ghost full: string) returns (k': nat)
    requires rest != [] && last == (|rest| == 1)
    requires name == StringText(rest[0].name) && entry == Text(rest[0].value, depth, fmt)
    requires k <= out.Length && out[..k] + (MembersText(rest, depth, fmt) + close) == full && |full| < out.Length
    modifies out
    ensures k' <= |full| && out[..k'] + (MembersText(rest[1..], depth, fmt) + close) == full
  {
    ghost var inner := MembersText(rest[1..], depth, fmt) + close;
    ghost var after := Opt(|rest| > 1, ",") + (Opt(fmt, "\n") + inner);
    MembersLayout(rest, depth, fmt, close);
    NameLayout(rest[0].name, depth, fmt, entry + after);
    k' := Emit(out, k, Opt(fmt, Tabs(depth)), name + (":" + (Opt(fmt, "\t") + (entry + after))), full);
    k' := Emit(out, k', name, ":" + (Opt(fmt, "\t") + (entry + after)), full);
    k' := Emit(out, k', ":", Opt(fmt, "\t") + (entry + after), full);
    k' := Emit(out, k', Opt(fmt, "\t"), entry + after, full);
    k' := EmitTerminated(out, k', entry, after, full);
    k' := Emit(out, k', Opt(!last, ","), Opt(fmt, "\n") + inner, full);
    k' := EmitTerminated(out, k', Opt(fmt, "\n"), inner, full);
  }
}
