/** Which texts the parser accepts: what it leaves is the end of what it was given, and arrays
    and objects are exactly the values with commas between them. */
module Grammar {
  import opened CString
  import opened CJson
  import opened Parser

  // ----- reading from the front

  /** `r` is what is left of `s` behind some point. */
  predicate Behind(s: string, r: string) {
    |r| <= |s| && s[|s| - |r|..] == r
  }

  lemma BehindBehind(s: string, m: string, r: string)
    requires Behind(s, m) && Behind(m, r)
    ensures Behind(s, r)
  {
    assert s[|s| - |r|..] == s[|s| - |m|..][|m| - |r|..];
  }

  lemma Dropped(s: string, k: nat, r: string)
    requires k <= |s| && Behind(s[k..], r)
    ensures Behind(s, r)
  {
    BehindBehind(s, s[k..], r);
  }

  lemma {:induction false} SkipBehind(s: string)
    ensures Behind(s, Skip(s))
  {
    if s != "" && s[0] as int <= 32 {
      SkipBehind(s[1..]);
      Dropped(s, 1, Skip(s));
    }
  }

  lemma {:induction false} ScanBehind(s: string, acc: nat)
    ensures Behind(s, ScanDigits(s, acc).1)
  {
    if s != "" && IsDigit(s[0]) {
      ScanBehind(s[1..], 10 * acc + DigitVal(s[0]));
      Dropped(s, 1, ScanDigits(s, acc).1);
    }
  }

  lemma ExponentBehind(s: string)
    ensures Behind(s, ParseExponent(s).1)
  {
    if s != "" && (s[0] == 'e' || s[0] == 'E') {
      var k := if |s| > 1 && (s[1] == '+' || s[1] == '-') then 2 else 1;
      ScanBehind(s[k..], 0);
      Dropped(s, k, ParseExponent(s).1);
    }
  }

  lemma FractionBehind(neg: bool, n: nat, s: string)
    ensures Behind(s, ParseFraction(neg, n, s).rest)
  {
    if |s| > 1 && s[0] == '.' && IsDigit(s[1]) {
      var tail := ScanDigits(s[1..], n).1;
      ScanBehind(s[1..], n);
      Dropped(s, 1, tail);
      ExponentBehind(tail);
      BehindBehind(s, tail, ParseExponent(tail).1);
    } else {
      ExponentBehind(s);
    }
  }

  lemma NumberBehind(s: string)
    requires s != "" && (s[0] == '-' || IsDigit(s[0]))
    ensures Behind(s, ParseNumber(s).rest)
  {
    var s1 := if s[0] == '-' then s[1..] else s;
    var s2 := if s1 != "" && s1[0] == '0' then s1[1..] else s1;
    assert Behind(s, s1) && Behind(s1, s2);
    BehindBehind(s, s1, s2);
    var (n, s3) := if s2 != "" && '1' <= s2[0] <= '9' then ScanDigits(s2, 0) else (0, s2);
    ScanBehind(s2, 0);
    BehindBehind(s, s2, s3);
    FractionBehind(s[0] == '-', n, s3);
    BehindBehind(s, s3, ParseFraction(s[0] == '-', n, s3).rest);
    NumberTurn(s, s1, s2, n, s3);
  }

  lemma {:induction false} UnescapeBehind(s: string)
    ensures Unescape(s).Parsed? ==> Behind(s, Unescape(s).rest)
    decreases |s|
  {
    if Unescape(s).Parsed? && s != "" && s[0] != '\"' {
      var k := if s[0] != '\\' then 1
               else if s[1] == 'u' then 2 + ParseUnicode(s[2..]).value.1
               else 2;
      UnescapeBehind(s[k..]);
      Dropped(s, k, Unescape(s).rest);
    }
  }

  lemma StringBehind(s: string)
    ensures ParseString(s).Parsed? ==> Behind(s, ParseString(s).rest)
  {
    if ParseString(s).Parsed? {
      UnescapeBehind(s[1..]);
      Dropped(s, 1, ParseString(s).rest);
    }
  }

  /** What is left behind a value is the end of the text. */
  lemma {:induction false} ValueBehind(s: string)
    ensures ParseValue(s).Parsed? ==> Behind(s, ParseValue(s).rest)
    decreases |s|, 0
  {
    StringBehind(s);
    if s != "" && (s[0] == '-' || IsDigit(s[0])) { NumberBehind(s); }
    if s != "" && (s[0] == '[' || s[0] == '{') { ContainerBehind(s); }
  }

  lemma {:induction false} ContainerBehind(s: string)
    requires s != "" && (s[0] == '[' || s[0] == '{')
    ensures ParseValue(s).Parsed? ==> Behind(s, ParseValue(s).rest)
    decreases |s|, 0, 0
  {
    var r := Skip(s[1..]);
    SkipBehind(s[1..]);
    Dropped(s, 1, r);
    if s[0] == '[' {
      ItemsBehind(r);
      ArrayRest(s, r);
    } else {
      MembersBehind(r);
      ObjectRest(s, r);
    }
    if ParseValue(s).Parsed? { BehindBehind(s, r, ParseValue(s).rest); }
  }

  lemma ArrayRest(s: string, r: string)
    requires s != "" && s[0] == '[' && r == Skip(s[1..])
    ensures ParseValue(s).Parsed? ==>
              (r != "" && ParseValue(s).rest == r[1..])
              || (ParseItems(r).Parsed? && ParseValue(s).rest == ParseItems(r).rest)
  {
  }

  lemma ObjectRest(s: string, r: string)
    requires s != "" && s[0] == '{' && r == Skip(s[1..])
    ensures ParseValue(s).Parsed? ==>
              (r != "" && ParseValue(s).rest == r[1..])
              || (ParseMembers(r).Parsed? && ParseValue(s).rest == ParseMembers(r).rest)
  {
  }

  lemma {:induction false} ItemsBehind(s: string)
    ensures ParseItems(s).Parsed? ==> Behind(s, ParseItems(s).rest)
    decreases |s|, 1
  {
    var v := ParseValue(Skip(s));
    if v.Parsed? {
      SkipBehind(s);
      ValueBehind(Skip(s));
      BehindBehind(s, Skip(s), v.rest);
      AfterBehind(s, v.rest);
      var r := Skip(v.rest);
      if r != "" && r[0] == ',' {
        ItemsBehind(r[1..]);
        if ParseItems(s).Parsed? { BehindBehind(s, r[1..], ParseItems(s).rest); }
      }
    }
  }

  /** White space and one more character. */
  lemma AfterBehind(s: string, rest: string)
    requires Behind(s, rest)
    ensures Behind(s, Skip(rest)) && (Skip(rest) != "" ==> Behind(s, Skip(rest)[1..]))
  {
    SkipBehind(rest);
    BehindBehind(s, rest, Skip(rest));
    if Skip(rest) != "" { BehindBehind(s, Skip(rest), Skip(rest)[1..]); }
  }

  lemma {:induction false} MemberBehind(s: string)
    ensures ParseMember(s).Parsed? ==> Behind(s, ParseMember(s).rest)
    decreases |s|, 1
  {
    var name := ParseString(Skip(s));
    if ParseMember(s).Parsed? {
      SkipBehind(s);
      StringBehind(Skip(s));
      BehindBehind(s, Skip(s), name.rest);
      AfterBehind(s, name.rest);
      var c := Skip(name.rest)[1..];
      SkipBehind(c);
      ValueBehind(Skip(c));
      BehindBehind(s, c, Skip(c));
      BehindBehind(s, Skip(c), ParseMember(s).rest);
    }
  }

  lemma {:induction false} MembersBehind(s: string)
    ensures ParseMembers(s).Parsed? ==> Behind(s, ParseMembers(s).rest)
    decreases |s|, 2
  {
    var m := ParseMember(s);
    if m.Parsed? {
      MemberBehind(s);
      AfterBehind(s, m.rest);
      var r := Skip(m.rest);
      if r != "" && r[0] == ',' {
        MembersBehind(r[1..]);
        if ParseMembers(s).Parsed? { BehindBehind(s, r[1..], ParseMembers(s).rest); }
      }
    }
  }

  // ----- arrays and objects

  /** The text of an element, white space in front included, and the white space behind it. */
  datatype Slot = Slot(text: string, after: string)

  /** The elements with commas between them, then `close`. */
  function Written(slots: seq<Slot>, close: string): string
    decreases |slots|, 0
  {
    if slots == [] then close else slots[0].text + Tail(slots, close)
  }

  /** From behind the first element. */
  function Tail(slots: seq<Slot>, close: string): string
    requires slots != []
    decreases |slots|, -1
  {
    slots[0].after + if |slots| == 1 then close else "," + Written(slots[1..], close)
  }

  function ParseItem(s: string): Parsed<Json> {
    ParseValue(Skip(s))
  }

  /** Every element is read as its value, up to what is behind it. */
  ghost predicate Spell<T>(parse: string -> Parsed<T>, slots: seq<Slot>, values: seq<T>, close: string)
    decreases |slots|
  {
    && |slots| == |values|
    && (slots != [] ==>
          && AllWhite(slots[0].after)
          && parse(slots[0].text + Tail(slots, close)) == Parsed(values[0], Tail(slots, close))
          && Spell(parse, slots[1..], values[1..], close))
  }

  lemma SkipAfter(slots: seq<Slot>, close: string)
    requires slots != [] && AllWhite(slots[0].after) && close != "" && close[0] in "]}"
    ensures Skip(Tail(slots, close)) == if |slots| == 1 then close else "," + Written(slots[1..], close)
  {
    SkipIs(slots[0].after, if |slots| == 1 then close else "," + Written(slots[1..], close));
  }

  /** One turn of a comma loop: an element, then a comma and the elements behind it, or the
      closing bracket. */
  ghost predicate Turns<T(!new)>(parse: string -> Parsed<T>, all: string -> Parsed<seq<T>>, bracket: char, s: string) {
    && (parse(s).Parsed? ==> Behind(s, parse(s).rest) && |parse(s).rest| < |s|)
    && all(s) == match parse(s)
                 case Fail => Fail
                 case Parsed(v, rest) =>
                   var r := Skip(rest);
                   if r != "" && r[0] == ',' then
                     match all(r[1..]) case Fail => Fail case Parsed(vs, left) => Parsed([v] + vs, left)
                   else if r != "" && r[0] == bracket then Parsed([v], r[1..])
                   else Fail
  }

  /** Such a text is read as those values ... */
  lemma {:induction false} LoopRead<T(!new)>(parse: string -> Parsed<T>, all: string -> Parsed<seq<T>>, bracket: char,
                                             slots: seq<Slot>, values: seq<T>, rest: string)
    requires forall z {:trigger Turns(parse, all, bracket, z)} :: Turns(parse, all, bracket, z)
    requires bracket in "]}" && slots != [] && Spell(parse, slots, values, [bracket] + rest)
    ensures all(Written(slots, [bracket] + rest)) == Parsed(values, rest)
    decreases |slots|
  {
    var close := [bracket] + rest;
    var s, left := Written(slots, close), Tail(slots, close);
    assert Turns(parse, all, bracket, s);
    SkipAfter(slots, close);
    if |slots| == 1 {
      TurnLast(parse, all, bracket, s, left, rest);
      assert values == [values[0]];
    } else {
      LoopRead(parse, all, bracket, slots[1..], values[1..], rest);
      TurnNext(parse, all, bracket, s, left, Written(slots[1..], close));
      assert values == [values[0]] + values[1..];
    }
  }

  lemma TurnLast<T(!new)>(parse: string -> Parsed<T>, all: string -> Parsed<seq<T>>, bracket: char,
                          s: string, left: string, rest: string)
    requires Turns(parse, all, bracket, s) && parse(s).Parsed? && parse(s).rest == left && bracket in "]}"
    requires Skip(left) == [bracket] + rest
    ensures all(s) == Parsed([parse(s).value], rest)
  {
    assert Skip(left)[1..] == rest;
  }

  lemma TurnNext<T(!new)>(parse: string -> Parsed<T>, all: string -> Parsed<seq<T>>, bracket: char,
                          s: string, left: string, more: string)
    requires Turns(parse, all, bracket, s) && parse(s).Parsed? && parse(s).rest == left
    requires Skip(left) == "," + more && all(more).Parsed?
    ensures all(s) == Parsed([parse(s).value] + all(more).value, all(more).rest)
  {
    assert Skip(left)[1..] == more;
  }

  /** The white space in front of a character. */
  lemma {:induction false} SkippedWhite(s: string) returns (w: string)
    ensures AllWhite(w) && s == w + Skip(s)
  {
    w := "";
    if s != "" && s[0] as int <= 32 {
      w := SkippedWhite(s[1..]);
      w := [s[0]] + w;
    }
  }

  /** One more element in front. */
  lemma FirstSlot<T>(parse: string -> Parsed<T>, slot: Slot, more: seq<Slot>, x: T, xs: seq<T>, close: string,
                     s: string, left: string)
    requires AllWhite(slot.after) && parse(s) == Parsed(x, left) && s == slot.text + left
    requires left == slot.after + if more == [] then close else "," + Written(more, close)
    requires Spell(parse, more, xs, close)
    ensures Spell(parse, [slot] + more, [x] + xs, close) && Written([slot] + more, close) == s
  {
    var slots, values := [slot] + more, [x] + xs;
    assert slots[1..] == more && values[1..] == xs;
    assert Tail(slots, close) == left;
  }

  /** The text in front of what is left, and the white space behind it. */
  lemma Cut(s: string, left: string) returns (slot: Slot)
    requires Behind(s, left)
    ensures s == slot.text + left && left == slot.after + Skip(left) && AllWhite(slot.after)
    ensures |Skip(left)| <= |left|
  {
    var after := SkippedWhite(left);
    slot := Slot(s[..|s| - |left|], after);
  }

  /** ... and every text that a comma loop reads is such a text. */
  lemma {:induction false} LoopWritten<T(!new)>(parse: string -> Parsed<T>, all: string -> Parsed<seq<T>>,
                                                bracket: char, s: string)
    returns (slots: seq<Slot>)
    requires all(s).Parsed?
    requires forall z {:trigger Turns(parse, all, bracket, z)} :: Turns(parse, all, bracket, z)
    ensures slots != [] && Spell(parse, slots, all(s).value, [bracket] + all(s).rest)
    ensures Written(slots, [bracket] + all(s).rest) == s
    decreases |s|
  {
    assert Turns(parse, all, bracket, s);
    var v, close := parse(s), [bracket] + all(s).rest;
    var r := Skip(v.rest);
    var first := Cut(s, v.rest);
    if r[0] == ',' {
      var more := LoopWritten(parse, all, bracket, r[1..]);
      assert r == "," + r[1..];
      FirstSlot(parse, first, more, v.value, all(r[1..]).value, close, s, v.rest);
      slots := [first] + more;
    } else {
      assert r == close;
      FirstSlot(parse, first, [], v.value, [], close, s, v.rest);
      slots := [first] + [];
    }
  }

  lemma ItemsTurn(s: string)
    ensures Turns(ParseItem, ParseItems, ']', s)
  {
    if ParseItem(s).Parsed? {
      SkipBehind(s);
      ValueBehind(Skip(s));
      BehindBehind(s, Skip(s), ParseItem(s).rest);
    }
  }

  lemma ItemsRead(slots: seq<Slot>, items: seq<Json>, rest: string)
    requires slots != [] && Spell(ParseItem, slots, items, "]" + rest)
    ensures ParseItems(Written(slots, "]" + rest)) == Parsed(items, rest)
  {
    forall z ensures Turns(ParseItem, ParseItems, ']', z) { ItemsTurn(z); }
    LoopRead(ParseItem, ParseItems, ']', slots, items, rest);
  }

  lemma ItemsWritten(s: string) returns (slots: seq<Slot>)
    requires ParseItems(s).Parsed?
    ensures slots != [] && Spell(ParseItem, slots, ParseItems(s).value, "]" + ParseItems(s).rest)
    ensures Written(slots, "]" + ParseItems(s).rest) == s
  {
    forall z ensures Turns(ParseItem, ParseItems, ']', z) { ItemsTurn(z); }
    slots := LoopWritten(ParseItem, ParseItems, ']', s);
  }

  lemma MembersTurn(s: string)
    ensures Turns(ParseMember, ParseMembers, '}', s)
  {
    MemberBehind(s);
  }

  lemma MembersRead(slots: seq<Slot>, ms: seq<Member>, rest: string)
    requires slots != [] && Spell(ParseMember, slots, ms, "}" + rest)
    ensures ParseMembers(Written(slots, "}" + rest)) == Parsed(ms, rest)
  {
    forall z ensures Turns(ParseMember, ParseMembers, '}', z) { MembersTurn(z); }
    LoopRead(ParseMember, ParseMembers, '}', slots, ms, rest);
  }

  lemma MembersWritten(s: string) returns (slots: seq<Slot>)
    requires ParseMembers(s).Parsed?
    ensures slots != [] && Spell(ParseMember, slots, ParseMembers(s).value, "}" + ParseMembers(s).rest)
    ensures Written(slots, "}" + ParseMembers(s).rest) == s
  {
    forall z ensures Turns(ParseMember, ParseMembers, '}', z) { MembersTurn(z); }
    slots := LoopWritten(ParseMember, ParseMembers, '}', s);
  }

  /** A member is a string, a colon and a value, with white space in front of each. */
  lemma MemberRead(w0: string, name: string, w1: string, w2: string, value: string, m: Member, rest: string)
    requires AllWhite(w0) && AllWhite(w1) && AllWhite(w2)
    requires var tail := w1 + (":" + (w2 + value)); ParseString(name + tail) == Parsed(m.name, tail)
    requires ParseValue(value) == Parsed(m.value, rest)
    ensures ParseMember(w0 + (name + (w1 + (":" + (w2 + value))))) == Parsed(m, rest)
  {
    var c := ":" + (w2 + value);
    StringStarts(name + (w1 + c));
    ValueStarts(value);
    MemberSkips(w0, name + (w1 + c), w1, c, w2, value);
    MemberOf(w0 + (name + (w1 + c)), name + (w1 + c), c, m, rest);
  }

  lemma StringStarts(s: string)
    ensures ParseString(s).Parsed? ==> s != "" && s[0] > ' '
  {
  }

  lemma ValueStarts(s: string)
    ensures ParseValue(s).Parsed? ==> s != "" && s[0] > ' '
  {
  }

  lemma MemberSkips(w0: string, q: string, w1: string, c: string, w2: string, value: string)
    requires AllWhite(w0) && AllWhite(w1) && AllWhite(w2) && c == ":" + (w2 + value)
    requires q != "" && q[0] > ' ' && value != "" && value[0] > ' '
    ensures Skip(w0 + q) == q && Skip(w1 + c) == c && c[0] == ':' && Skip(c[1..]) == value
  {
    SkipIs(w0, q);
    SkipIs(w1, c);
    assert c[1..] == w2 + value;
    SkipIs(w2, value);
  }

  lemma MemberOf(s: string, q: string, c: string, m: Member, rest: string)
    requires Skip(s) == q && ParseString(q).Parsed? && ParseString(q).value == m.name && Skip(ParseString(q).rest) == c
    requires c != "" && c[0] == ':' && ParseValue(Skip(c[1..])) == Parsed(m.value, rest)
    ensures ParseMember(s) == Parsed(m, rest)
  {
  }

  lemma MemberWritten(s: string) returns (w0: string, name: string, w1: string, w2: string, value: string)
    requires ParseMember(s).Parsed?
    ensures AllWhite(w0) && AllWhite(w1) && AllWhite(w2) && s == w0 + (name + (w1 + (":" + (w2 + value))))
    ensures var tail := w1 + (":" + (w2 + value)); ParseString(name + tail) == Parsed(ParseMember(s).value.name, tail)
    ensures ParseValue(value) == Parsed(ParseMember(s).value.value, ParseMember(s).rest)
  {
    MemberTurn(s);
    w0, name, w1, w2, value := MemberPieces(s, ParseString(Skip(s)).rest);
  }

  lemma MemberPieces(s: string, tail: string)
    returns (w0: string, name: string, w1: string, w2: string, value: string)
    requires Behind(Skip(s), tail) && Skip(tail) != "" && Skip(tail)[0] == ':'
    ensures AllWhite(w0) && AllWhite(w1) && AllWhite(w2) && s == w0 + (name + (w1 + (":" + (w2 + value))))
    ensures tail == w1 + (":" + (w2 + value)) && Skip(s) == name + tail && value == Skip(Skip(tail)[1..])
  {
    var q, c := Skip(s), Skip(tail);
    w0 := SkippedWhite(s);
    name := q[..|q| - |tail|];
    assert name + tail == q;
    w1 := SkippedWhite(tail);
    w2 := SkippedWhite(c[1..]);
    value := Skip(c[1..]);
    assert c == ":" + c[1..];
  }

  lemma MemberTurn(s: string)
    requires ParseMember(s).Parsed?
    ensures var q := ParseString(Skip(s));
            && q.Parsed? && q.value == ParseMember(s).value.name && Behind(Skip(s), q.rest)
            && var c := Skip(q.rest);
               c != "" && c[0] == ':'
               && ParseValue(Skip(c[1..])) == Parsed(ParseMember(s).value.value, ParseMember(s).rest)
  {
    StringBehind(Skip(s));
  }

  // ----- brackets

  lemma SkipTwice(s: string)
    ensures Skip(Skip(s)) == Skip(s)
  {
    SkipStops(s);
    if Skip(s) != "" { assert Skip(s)[0] as int > 32; }
  }

  lemma {:induction false} SkipStops(s: string)
    ensures Skip(s) != "" ==> Skip(s)[0] > ' '
  {
    if s != "" && s[0] as int <= 32 { SkipStops(s[1..]); }
  }

  lemma OpensValue(s: string)
    requires ParseValue(s).Parsed?
    ensures s != "" && s[0] !in "]}"
  {
  }

  /** A text is the inside of an array, up to behind its bracket. */
  ghost predicate ArrayBody(s: string, items: seq<Json>, rest: string) {
    if items == [] then exists w :: AllWhite(w) && s == w + ("]" + rest)
    else exists slots :: slots != [] && Spell(ParseItem, slots, items, "]" + rest) && Written(slots, "]" + rest) == s
  }

  ghost predicate ObjectBody(s: string, ms: seq<Member>, rest: string) {
    if ms == [] then exists w :: AllWhite(w) && s == w + ("}" + rest)
    else exists slots :: slots != [] && Spell(ParseMember, slots, ms, "}" + rest) && Written(slots, "}" + rest) == s
  }

  lemma ItemsSkip(s: string)
    ensures ParseItems(Skip(s)) == ParseItems(s)
  {
    SkipTwice(s);
  }

  lemma MembersSkip(s: string)
    ensures ParseMembers(Skip(s)) == ParseMembers(s)
  {
    SkipTwice(s);
  }

  lemma ArrayOpens(s: string)
    ensures ParseValue("[" + s)
         == if Skip(s) != "" && Skip(s)[0] == ']' then Parsed(Array([]), Skip(s)[1..])
            else match ParseItems(s) case Fail => Fail case Parsed(items, rest) => Parsed(Array(items), rest)
  {
    assert ("[" + s)[1..] == s;
    ItemsSkip(s);
  }

  lemma ObjectOpens(s: string)
    ensures ParseValue("{" + s)
         == if Skip(s) != "" && Skip(s)[0] == '}' then Parsed(Object([]), Skip(s)[1..])
            else match ParseMembers(s) case Fail => Fail case Parsed(ms, rest) => Parsed(Object(ms), rest)
  {
    assert ("{" + s)[1..] == s;
    MembersSkip(s);
  }

  /** Behind an opening bracket exactly the texts of that form are read, as those values. */
  lemma ArrayIff(s: string, items: seq<Json>, rest: string)
    ensures ParseValue("[" + s) == Parsed(Array(items), rest) <==> ArrayBody(s, items, rest)
  {
    if ArrayBody(s, items, rest) {
      ArrayRead(s, items, rest);
    }
    if ParseValue("[" + s) == Parsed(Array(items), rest) {
      ArrayFound(s, items, rest);
    }
  }

  lemma ArrayFound(s: string, items: seq<Json>, rest: string)
    requires ParseValue("[" + s) == Parsed(Array(items), rest)
    ensures ArrayBody(s, items, rest)
  {
    ArrayOpens(s);
    if Skip(s) != "" && Skip(s)[0] == ']' {
      var w := SkippedWhite(s);
      assert Skip(s) == "]" + rest;
    } else {
      var slots := ItemsWritten(s);
    }
  }

  lemma ArrayRead(s: string, items: seq<Json>, rest: string)
    requires ArrayBody(s, items, rest)
    ensures ParseValue("[" + s) == Parsed(Array(items), rest)
  {
    ArrayOpens(s);
    if items == [] {
      var w :| AllWhite(w) && s == w + ("]" + rest);
      SkipIs(w, "]" + rest);
      assert ("]" + rest)[1..] == rest;
    } else {
      var slots :| slots != [] && Spell(ParseItem, slots, items, "]" + rest) && Written(slots, "]" + rest) == s;
      ItemsRead(slots, items, rest);
      OpensValue(Skip(s));
    }
  }

  lemma ObjectIff(s: string, ms: seq<Member>, rest: string)
    ensures ParseValue("{" + s) == Parsed(Object(ms), rest) <==> ObjectBody(s, ms, rest)
  {
    if ObjectBody(s, ms, rest) {
      ObjectRead(s, ms, rest);
    }
    if ParseValue("{" + s) == Parsed(Object(ms), rest) {
      ObjectFound(s, ms, rest);
    }
  }

  lemma ObjectFound(s: string, ms: seq<Member>, rest: string)
    requires ParseValue("{" + s) == Parsed(Object(ms), rest)
    ensures ObjectBody(s, ms, rest)
  {
    ObjectOpens(s);
    if Skip(s) != "" && Skip(s)[0] == '}' {
      var w := SkippedWhite(s);
      assert Skip(s) == "}" + rest;
    } else {
      var slots := MembersWritten(s);
    }
  }

  lemma ObjectRead(s: string, ms: seq<Member>, rest: string)
    requires ObjectBody(s, ms, rest)
    ensures ParseValue("{" + s) == Parsed(Object(ms), rest)
  {
    ObjectOpens(s);
    if ms == [] {
      var w :| AllWhite(w) && s == w + ("}" + rest);
      SkipIs(w, "}" + rest);
      assert ("}" + rest)[1..] == rest;
    } else {
      var slots :| slots != [] && Spell(ParseMember, slots, ms, "}" + rest) && Written(slots, "}" + rest) == s;
      MembersRead(slots, ms, rest);
      assert ParseString(Skip(s)).Parsed?;
    }
  }

  /** A text that starts with nothing a value starts with is refused; a string needs no closing
      quote at the end of the text. */
  lemma ValueOpens(s: string)
    ensures ParseValue(s).Parsed? ==>
              s != "" && (IsDigit(s[0]) || s[0] in {'\"', '-', '[', '{'} || "null" <= s || "true" <= s || "false" <= s)
    ensures '\"' !in s && '\\' !in s ==> ParseValue("\"" + s) == Parsed(String(s), "")
  {
    if '\"' !in s && '\\' !in s {
      Unterminated(s);
      assert ("\"" + s)[1..] == s;
    }
  }

  lemma {:induction false} Unterminated(s: string)
    requires '\"' !in s && '\\' !in s
    ensures Unescape(s) == Parsed(s, "")
  {
    if s != "" {
      Unterminated(s[1..]);
      assert s == [s[0]] + s[1..];
    }
  }

  /** A backslash stands for the named control character before one of the five letters, starts a
      code before 'u', and is dropped before anything else. */
  lemma SimpleEscape(c: char, rest: string)
    requires c != 'u'
    ensures Unescape(['\\', c] + rest)
         == Prefixed([if c == 'b' then 8 as char else if c == 't' then 9 as char else if c == 'n' then 10 as char
                      else if c == 'f' then 12 as char else if c == 'r' then 13 as char else c], Unescape(rest))
  {
    assert (['\\', c] + rest)[2..] == rest;
  }
}
