/** The parsing loops, each proved to read what the parsing functions say. A text pointer
    is the text from there to the terminator. */
module ParserOps {
  import opened CString
  import opened CJson
  import opened Parser
  import opened StringBuffer

  method SkipWhite(s: string) returns (r: string)
    ensures r == Skip(s)
  {
    r := s;
    while r != "" && r[0] as int <= 32
      invariant Skip(r) == Skip(s)
      decreases |r|
    {
      r := r[1..];
    }
  }

  /** do acc = 10 * acc + digit while there are digits. */
  method ReadDigits(s: string, acc: nat) returns (n: nat, rest: string)
    ensures (n, rest) == ScanDigits(s, acc)
  {
    n, rest := acc, s;
    while rest != "" && IsDigit(rest[0])
      invariant ScanDigits(rest, n) == ScanDigits(s, acc)
      decreases |rest|
    {
      n, rest := 10 * n + DigitVal(rest[0]), rest[1..];
    }
  }

  method ReadExponent(s: string) returns (e: int, rest: string)
    ensures (e, rest) == ParseExponent(s)
  {
    if s == "" || (s[0] != 'e' && s[0] != 'E') {
      return 0, s;
    }
    rest := s[1..];
    var neg := rest != "" && rest[0] == '-';
    if rest != "" && (rest[0] == '+' || rest[0] == '-') {
      rest := rest[1..];
      assert rest == s[2..];
    }
    var n;
    n, rest := ReadDigits(rest, 0);
    e := if neg then -(n as int) else n;
  }

  /** parse_number. */
  method ParseNumberAt(s: string) returns (r: Parsed<Json>)
    requires s != "" && (s[0] == '-' || IsDigit(s[0]))
    ensures r == ParseNumber(s)
  {
    var neg := s[0] == '-';
    var rest := if neg then s[1..] else s;
    var n, scale := 0, 0;
    if rest != "" && rest[0] == '0' {
      rest := rest[1..];
    }
    if rest != "" && '1' <= rest[0] <= '9' {
      n, rest := ReadDigits(rest, 0);
    }
    assert ParseNumber(s) == ParseFraction(neg, n, rest);
    if |rest| > 1 && rest[0] == '.' && IsDigit(rest[1]) {
      var digits := rest[1..];
      n, rest := ReadDigits(digits, n);
      scale := |rest| - |digits|;
    }
    var e;
    e, rest := ReadExponent(rest);
    r := Number'(neg, n, scale + e, rest);
  }

  function Onto<T>(done: seq<T>, r: Parsed<seq<T>>): Parsed<seq<T>> {
    match r case Fail => Fail case Parsed(v, rest) => Parsed(done + v, rest)
  }

  lemma OntoOne<T>(done: seq<T>, x: T, r: Parsed<seq<T>>)
    ensures Onto(done, Onto([x], r)) == Onto(done + [x], r)
  {
    if r.Parsed? { assert done + ([x] + r.value) == (done + [x]) + r.value; }
  }

  /** What the array loop still reads once it stands behind an item. */
  function ItemsTail(value: string): Parsed<seq<Json>> {
    if value != "" && value[0] == ',' then ParseItems(value[1..])
    else if value != "" && value[0] == ']' then Parsed([], value[1..])
    else Fail
  }

  function MembersTail(value: string): Parsed<seq<Member>> {
    if value != "" && value[0] == ',' then ParseMembers(value[1..])
    else if value != "" && value[0] == '}' then Parsed([], value[1..])
    else Fail
  }

  lemma ItemsUnfold(s: string)
    ensures ParseItems(s) == match ParseValue(Skip(s))
                             case Fail => Fail
                             case Parsed(v, rest) => Onto([v], ItemsTail(Skip(rest)))
  {
    var p := ParseValue(Skip(s));
    if p.Parsed? {
      var r := Skip(p.rest);
      if r != "" && r[0] == ']' { assert [p.value] + [] == [p.value]; }
    }
  }

  lemma MembersUnfold(s: string)
    ensures ParseMembers(s) == match ParseMember(s)
                               case Fail => Fail
                               case Parsed(m, rest) => Onto([m], MembersTail(Skip(rest)))
  {
    var p := ParseMember(s);
    if p.Parsed? {
      var r := Skip(p.rest);
      if r != "" && r[0] == '}' { assert [p.value] + [] == [p.value]; }
    }
  }

  /** What a parsing routine promises besides its result: a text that is regular behind all its
      quotes is so from where it stops, and no string of it outgrows its buffer. */
  ghost predicate Stays<T>(s: string, r: Parsed<T>, over: bool) {
    AllRegular(s) ==> !over && (r.Parsed? ==> AllRegular(r.rest))
  }

  lemma SkipStays(s: string)
    ensures AllRegular(s) ==> AllRegular(Skip(s))
  {
    if AllRegular(s) { SkipRegular(s); }
  }

  lemma DropStays(s: string, k: nat)
    requires k <= |s|
    ensures AllRegular(s) ==> AllRegular(s[k..])
  {
    if AllRegular(s) { DropRegular(s, k); }
  }

  /** parse_array behind the bracket. */
  method ParseArrayLoop(s: string) returns (r: Parsed<seq<Json>>, over: bool)
    ensures r == ParseItems(s) && Stays(s, r, over)
    decreases |s|, 2
  {
    ItemsUnfold(s);
    SkipStays(s);
    var start := SkipWhite(s);
    var first;
    first, over := ParseValueAt(start);
    if first.Fail? {
      return Fail, over;
    }
    SkipStays(first.rest);
    var value, items := Skip(first.rest), [first.value];
    while value != "" && value[0] == ','
      invariant |value| < |s| && (AllRegular(s) ==> AllRegular(value) && !over)
      invariant ParseItems(s) == Onto(items, ItemsTail(value))
      decreases |value|
    {
      ItemsUnfold(value[1..]);
      DropStays(value, 1);
      SkipStays(value[1..]);
      var next := SkipWhite(value[1..]);
      var v, more := ParseValueAt(next);
      over := over || more;
      if v.Fail? {
        return Fail, over;
      }
      OntoOne(items, v.value, ItemsTail(Skip(v.rest)));
      SkipStays(v.rest);
      items, value := items + [v.value], Skip(v.rest);
    }
    if value != "" && value[0] == ']' {
      assert items + [] == items;
      DropStays(value, 1);
      return Parsed(items, value[1..]), over;
    }
    return Fail, over;
  }

  /** parse_string, with its buffer. */
  method ParseStringText(s: string) returns (r: Parsed<string>, over: bool)
    ensures r == ParseString(s) && Stays(s, r, over)
  {
    var out;
    r, over, out := ParseStringAt(s);
    over := over && r.Parsed?;
    if r.Parsed? && AllRegular(s) {
      DropRegular(s, 1);
      UnescapeRegular(s[1..]);
      StringFits(s);
    }
  }

  /** A name and the colon behind it; what follows the colon. */
  method ParseNameAt(s: string) returns (name: Parsed<string>, value: string, over: bool)
    ensures ParseMember(s) == (if name.Fail? then Fail else match ParseValue(value)
                                                            case Fail => Fail
                                                            case Parsed(v, rest) => Parsed(Member(name.value, v), rest))
    ensures name.Parsed? ==> |value| < |s|
    ensures AllRegular(s) ==> !over && (name.Parsed? ==> AllRegular(value))
  {
    value := "";
    SkipStays(s);
    var start := SkipWhite(s);
    name, over := ParseStringText(start);
    if name.Fail? {
      return;
    }
    SkipStays(name.rest);
    var colon := SkipWhite(name.rest);
    if colon == "" || colon[0] != ':' {
      name := Fail;
      return;
    }
    DropStays(colon, 1);
    SkipStays(colon[1..]);
    value := SkipWhite(colon[1..]);
  }

  /** One name, colon and value. */
  method ParseMemberAt(s: string) returns (r: Parsed<Member>, over: bool)
    ensures r == ParseMember(s) && Stays(s, r, over)
    decreases |s|, 2
  {
    var name, value;
    name, value, over := ParseNameAt(s);
    if name.Fail? {
      return Fail, over;
    }
    var v, more := ParseValueAt(value);
    over := over || more;
    if v.Fail? {
      return Fail, over;
    }
    return Parsed(Member(name.value, v.value), v.rest), over;
  }

  /** parse_object behind the brace. */
  method ParseObjectLoop(s: string) returns (r: Parsed<seq<Member>>, over: bool)
    ensures r == ParseMembers(s) && Stays(s, r, over)
    decreases |s|, 3
  {
    MembersUnfold(s);
    var first;
    first, over := ParseMemberAt(s);
    if first.Fail? {
      return Fail, over;
    }
    SkipStays(first.rest);
    var value, ms := Skip(first.rest), [first.value];
    while value != "" && value[0] == ','
      invariant |value| < |s| && (AllRegular(s) ==> AllRegular(value) && !over)
      invariant ParseMembers(s) == Onto(ms, MembersTail(value))
      decreases |value|
    {
      MembersUnfold(value[1..]);
      DropStays(value, 1);
      var m, more := ParseMemberAt(value[1..]);
      over := over || more;
      if m.Fail? {
        return Fail, over;
      }
      OntoOne(ms, m.value, MembersTail(Skip(m.rest)));
      SkipStays(m.rest);
      ms, value := ms + [m.value], Skip(m.rest);
    }
    if value != "" && value[0] == '}' {
      assert ms + [] == ms;
      DropStays(value, 1);
      return Parsed(ms, value[1..]), over;
    }
    return Fail, over;
  }

  /** parse_value: dispatch on the text. `over` says that some string did not fit the buffer
      measured for it. */
  method ParseValueAt(s: string) returns (r: Parsed<Json>, over: bool)
    ensures r == ParseValue(s) && Stays(s, r, over)
    decreases |s|, 1
  {
    over := false;
    if "null" <= s {
      DropStays(s, 4);
      return Parsed(Null, s[4..]), false;
    }
    if "false" <= s {
      DropStays(s, 5);
      return Parsed(False, s[5..]), false;
    }
    if "true" <= s {
      DropStays(s, 4);
      return Parsed(True, s[4..]), false;
    }
    if s == "" {
      return Fail, false;
    }
    if s[0] == '\"' {
      var v;
      v, over := ParseStringText(s);
      return (if v.Fail? then Fail else Parsed(String(v.value), v.rest)), over;
    }
    if s[0] == '-' || IsDigit(s[0]) {
      if AllRegular(s) { NumberRegular(s); }
      r := ParseNumberAt(s);
      return;
    }
    if s[0] == '[' || s[0] == '{' {
      r, over := ParseContainerAt(s);
      return;
    }
    return Fail, false;
  }

  /** An array or an object. */
  method ParseContainerAt(s: string) returns (r: Parsed<Json>, over: bool)
    requires s != "" && (s[0] == '[' || s[0] == '{')
    ensures r == ParseValue(s) && Stays(s, r, over)
    decreases |s|, 0
  {
    DropStays(s, 1);
    SkipStays(s[1..]);
    var body := SkipWhite(s[1..]);
    if body != "" { DropStays(body, 1); }
    if s[0] == '[' {
      if body != "" && body[0] == ']' {
        return Parsed(Array([]), body[1..]), false;
      }
      var items;
      items, over := ParseArrayLoop(body);
      return (if items.Fail? then Fail else Parsed(Array(items.value), items.rest)), over;
    }
    if body != "" && body[0] == '}' {
      return Parsed(Object([]), body[1..]), false;
    }
    var ms;
    ms, over := ParseObjectLoop(body);
    return (if ms.Fail? then Fail else Parsed(Object(ms.value), ms.rest)), over;
  }
}
