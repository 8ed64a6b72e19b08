/** The recursive-descent parser: what each routine reads from the front of the text,
    and that it reads back every printed tree. */
module Parser {
  import opened Option
  import opened CString
  import opened CJson

  datatype Parsed<T> = Fail | Parsed(value: T, rest: string)

  /** skip: jump white space. */
  function Skip(s: string): (r: string)
    ensures |r| <= |s|
  {
    if s != "" && s[0] as int <= 32 then Skip(s[1..]) else s
  }

  // ----- numbers

  function Pow10(e: int): real
    decreases if e < 0 then -e else e
  {
    if e == 0 then 1.0 else if e > 0 then 10.0 * Pow10(e - 1) else Pow10(e + 1) / 10.0
  }

  /** Conversion of a double to int: towards zero. */
  function Trunc(x: real): int {
    if x < 0.0 then -((-x).Floor) else x.Floor
  }

  lemma {:induction false} ScanShortens(s: string, acc: nat)
    ensures |ScanDigits(s, acc).1| <= |s|
  {
    if s != "" && IsDigit(s[0]) { ScanShortens(s[1..], 10 * acc + DigitVal(s[0])); }
  }

  /** The exponent part: its signed value and the text behind it. */
  function ParseExponent(s: string): (r: (int, string))
    ensures |r.1| <= |s|
  {
    if s == "" || (s[0] != 'e' && s[0] != 'E') then (0, s)
    else
      var signed := |s| > 1 && (s[1] == '+' || s[1] == '-');
      var digits := if signed then s[2..] else s[1..];
      ScanShortens(digits, 0);
      var (e, rest) := ScanDigits(digits, 0);
      (if signed && s[1] == '-' then -(e as int) else e, rest)
  }

  /** parse_number, with the double arithmetic taken exactly. */
  function ParseNumber(s: string): (r: Parsed<Json>)
    requires s != "" && (s[0] == '-' || IsDigit(s[0]))
    ensures r.Parsed? && |r.rest| < |s|
  {
    var neg := s[0] == '-';
    var s1 := if neg then s[1..] else s;
    var s2 := if s1 != "" && s1[0] == '0' then s1[1..] else s1;
    var (n, s3) := if s2 != "" && '1' <= s2[0] <= '9' then ScanDigits(s2, 0) else (0, s2);
    assert |s3| < |s| by {
      ScanShortens(s2, 0);
      if !neg && s1[0] != '0' {
        assert ScanDigits(s2, 0) == ScanDigits(s2[1..], DigitVal(s2[0]));
        ScanShortens(s2[1..], DigitVal(s2[0]));
      }
    }
    ParseFraction(neg, n, s3)
  }

  /** The number from behind its whole part on. */
  function ParseFraction(neg: bool, n: nat, s: string): (r: Parsed<Json>)
    ensures r.Parsed? && |r.rest| <= |s|
  {
    if |s| > 1 && s[0] == '.' && IsDigit(s[1]) then
      ScanShortens(s[1..], n);
      var (n2, tail) := ScanDigits(s[1..], n);
      var (e, rest) := ParseExponent(tail);
      Number'(neg, n2, e - (|s| - 1 - |tail|), rest)
    else
      var (e, rest) := ParseExponent(s);
      Number'(neg, n, e, rest)
  }

  /** How the text of a number is divided. */
  lemma NumberTurn(s: string, s1: string, s2: string, n: nat, s3: string)
    requires s != "" && (s[0] == '-' || IsDigit(s[0])) && s1 == if s[0] == '-' then s[1..] else s
    requires s2 == if s1 != "" && s1[0] == '0' then s1[1..] else s1
    requires (n, s3) == if s2 != "" && '1' <= s2[0] <= '9' then ScanDigits(s2, 0) else (0, s2)
    ensures ParseNumber(s) == ParseFraction(s[0] == '-', n, s3)
  {
  }

  function Number'(neg: bool, n: nat, e: int, rest: string): Parsed<Json> {
    var x := (if neg then -1.0 else 1.0) * (n as real) * Pow10(e);
    Parsed(Number(Trunc(x), x), rest)
  }

  // ----- strings

  function HexVal(c: char): (v: int)
    ensures -1 <= v < 16
  {
    if '0' <= c <= '9' then c as int - '0' as int
    else if 'A' <= c <= 'F' then c as int - 'A' as int + 10
    else if 'a' <= c <= 'f' then c as int - 'a' as int + 10
    else -1
  }

  /** parse_hex4: 0 when any of the four is not a hex digit. */
  function Hex4(s: string): (v: nat)
    requires |s| >= 4
    ensures v < 0x1_0000
  {
    var a, b, c, d := HexVal(s[0]), HexVal(s[1]), HexVal(s[2]), HexVal(s[3]);
    if a < 0 || b < 0 || c < 0 || d < 0 then 0 else ((a * 16 + b) * 16 + c) * 16 + d
  }

  /** The UTF-8 bytes of a code point, each as a character below 256. */
  function Utf8(uc: nat): string
    requires uc < 0x11_0000
  {
    if uc < 0x80 then [uc as char]
    else if uc < 0x800 then [(0xC0 + uc / 64) as char, (0x80 + uc % 64) as char]
    else if uc < 0x1_0000 then [(0xE0 + uc / 4096) as char, (0x80 + uc / 64 % 64) as char, (0x80 + uc % 64) as char]
    else [(0xF0 + uc / 262144) as char, (0x80 + uc / 4096 % 64) as char,
          (0x80 + uc / 64 % 64) as char, (0x80 + uc % 64) as char]
  }

  /** The \u escape at the front of `s` (which starts behind the 'u'): the bytes it gives
      and how many characters it takes. Reading past the terminator has no meaning. */
  function ParseUnicode(s: string): (r: Option<(string, nat)>)
    ensures r.Some? ==> r.value.1 <= |s|
  {
    if |s| < 4 then None
    else
      var uc := Hex4(s);
      if 0xDC00 <= uc <= 0xDFFF || uc == 0 then Some(("", 4))
      else if 0xD800 <= uc <= 0xDBFF then
        if |s| < 6 || s[4] != '\\' || s[5] != 'u' then Some(("", 4))
        else if |s| < 10 then None
        else
          var uc2 := Hex4(s[6..]);
          if uc2 < 0xDC00 || uc2 > 0xDFFF then Some(("", 10))
          else Some((Utf8(0x1_0000 + (uc % 0x400) * 0x400 + uc2 % 0x400), 10))
      else Some((Utf8(uc), 4))
  }

  /** The single character a two-character escape stands for. */
  function Unescaped(c: char): char {
    if c == 'b' then 8 as char
    else if c == 'f' then 12 as char
    else if c == 'n' then '\n'
    else if c == 'r' then '\r'
    else if c == 't' then '\t'
    else c
  }

  function Prefixed(p: string, r: Parsed<string>): Parsed<string> {
    match r case Fail => Fail case Parsed(v, rest) => Parsed(p + v, rest)
  }

  /** The body of parse_string, behind the opening quote. */
  function Unescape(s: string): (r: Parsed<string>)
    ensures r.Parsed? ==> |r.rest| <= |s|
    decreases |s|
  {
    if s == "" then Parsed("", "")
    else if s[0] == '\"' then Parsed("", s[1..])
    else if s[0] != '\\' then Prefixed([s[0]], Unescape(s[1..]))
    else if |s| == 1 then Fail
    else if s[1] == 'u' then
      match ParseUnicode(s[2..])
      case None => Fail
      case Some((out, k)) => Prefixed(out, Unescape(s[2 + k..]))
    else Prefixed([Unescaped(s[1])], Unescape(s[2..]))
  }

  function ParseString(s: string): (r: Parsed<string>)
    ensures r.Parsed? ==> |r.rest| < |s|
  {
    if s == "" || s[0] != '\"' then Fail else Unescape(s[1..])
  }

  // ----- values

  function ParseValue(s: string): (r: Parsed<Json>)
    ensures r.Parsed? ==> |r.rest| < |s|
    decreases |s|, 0
  {
    if "null" <= s then Parsed(Null, s[4..])
    else if "false" <= s then Parsed(False, s[5..])
    else if "true" <= s then Parsed(True, s[4..])
    else if s == "" then Fail
    else if s[0] == '\"' then
      (match ParseString(s) case Fail => Fail case Parsed(v, rest) => Parsed(String(v), rest))
    else if s[0] == '-' || IsDigit(s[0]) then ParseNumber(s)
    else if s[0] == '[' then
      var r := Skip(s[1..]);
      if r != "" && r[0] == ']' then Parsed(Array([]), r[1..])
      else (match ParseItems(r) case Fail => Fail case Parsed(items, rest) => Parsed(Array(items), rest))
    else if s[0] == '{' then
      var r := Skip(s[1..]);
      if r != "" && r[0] == '}' then Parsed(Object([]), r[1..])
      else (match ParseMembers(r) case Fail => Fail case Parsed(ms, rest) => Parsed(Object(ms), rest))
    else Fail
  }

  /** One or more values separated by commas, up to the closing bracket. */
  function ParseItems(s: string): (r: Parsed<seq<Json>>)
    ensures r.Parsed? ==> |r.rest| < |s|
    decreases |s|, 1
  {
    match ParseValue(Skip(s))
    case Fail => Fail
    case Parsed(v, rest) =>
      var r := Skip(rest);
      if r != "" && r[0] == ',' then
        match ParseItems(r[1..]) case Fail => Fail case Parsed(vs, rest2) => Parsed([v] + vs, rest2)
      else if r != "" && r[0] == ']' then Parsed([v], r[1..])
      else Fail
  }

  /** A name, a colon and a value. */
  function ParseMember(s: string): (r: Parsed<Member>)
    ensures r.Parsed? ==> |r.rest| < |s|
    decreases |s|, 1
  {
    match ParseString(Skip(s))
    case Fail => Fail
    case Parsed(name, rest) =>
      var c := Skip(rest);
      if c == "" || c[0] != ':' then Fail
      else match ParseValue(Skip(c[1..])) case Fail => Fail case Parsed(v, rest2) => Parsed(Member(name, v), rest2)
  }

  function ParseMembers(s: string): (r: Parsed<seq<Member>>)
    ensures r.Parsed? ==> |r.rest| < |s|
    decreases |s|, 2
  {
    match ParseMember(s)
    case Fail => Fail
    case Parsed(m, rest) =>
      var r := Skip(rest);
      if r != "" && r[0] == ',' then
        match ParseMembers(r[1..]) case Fail => Fail case Parsed(ms, rest2) => Parsed([m] + ms, rest2)
      else if r != "" && r[0] == '}' then Parsed([m], r[1..])
      else Fail
  }

  /** cJSON_ParseWithOpts: the tree and where parsing stopped. */
  function Parse(s: string, requireNullTerminated: bool): Parsed<Json> {
    match ParseValue(Skip(s))
    case Fail => Fail
    case Parsed(v, rest) =>
      if requireNullTerminated then (if Skip(rest) == "" then Parsed(v, "") else Fail) else Parsed(v, rest)
  }

  // ----- white space, and text behind the value

  /** Characters up to 32, the space. */
  predicate AllWhite(s: string) {
    forall i :: 0 <= i < |s| ==> s[i] <= ' '
  }

  /** Exactly the white space in front goes. */
  lemma {:induction false} SkipIs(w: string, s: string)
    requires AllWhite(w) && (s != "" ==> s[0] > ' ')
    ensures Skip(w + s) == s
  {
    if w == "" {
      assert w + s == s;
    } else {
      assert (w + s)[1..] == w[1..] + s;
      SkipIs(w[1..], s);
    }
  }

  lemma {:induction false} SkipsAll(s: string)
    ensures Skip(s) == "" <==> AllWhite(s)
  {
    if s != "" && s[0] as int <= 32 {
      SkipsAll(s[1..]);
      assert s == [s[0]] + s[1..];
    }
  }

  /** When the terminator is required, the value is accepted exactly if only white space is
      behind it. */
  lemma TrailingText(s: string)
    ensures var open, closed := Parse(s, false), Parse(s, true);
            && (closed.Parsed? <==> open.Parsed? && AllWhite(open.rest))
            && (closed.Parsed? ==> closed == Parsed(open.value, ""))
  {
    if Parse(s, false).Parsed? { SkipsAll(Parse(s, false).rest); }
  }
}
