/** JSON Pointer as cJSON_Utils implements it. A node pointer is modelled by the node's
    location: the child positions on the way down from the root. */
module Pointer {
  import opened Option
  import opened CString
  import opened CJson

  type Loc = seq<nat>

  function Children(t: Json): (r: seq<Json>) {
    match t
    case Array(items) => items
    case Object(ms) => seq(|ms|, i requires 0 <= i < |ms| => ms[i].value)
    case _ => []
  }

  lemma ChildSmaller(t: Json, i: nat)
    requires i < |Children(t)|
    ensures Children(t)[i] < t
  {
  }

  predicate ValidLoc(t: Json, loc: Loc)
    decreases |loc|
  {
    loc == [] || (loc[0] < |Children(t)| && ValidLoc(Children(t)[loc[0]], loc[1..]))
  }

  function At(t: Json, loc: Loc): Json
    requires ValidLoc(t, loc)
    decreases |loc|
  {
    if loc == [] then t else At(Children(t)[loc[0]], loc[1..])
  }

  // ----- escaping of names

  function EncodeChar(c: char): string {
    if c == '/' then "~1" else if c == '~' then "~0" else [c]
  }

  /** PointerEncodedstrcpy. */
  function Encode(s: string): string {
    if s == "" then "" else EncodeChar(s[0]) + Encode(s[1..])
  }

  /** InplaceDecodePointerString; reading past a final '~' has no meaning. */
  function Decode(s: string): Option<string> {
    if s == "" then Some("")
    else if s[0] != '~' then
      match Decode(s[1..]) case None => None case Some(r) => Some([s[0]] + r)
    else if |s| == 1 then None
    else
      match Decode(s[2..]) case None => None case Some(r) => Some([if s[1] == '0' then '~' else '/'] + r)
  }

  predicate AtBoundary(rest: string) {
    rest == "" || rest[0] == '/'
  }

  /** Pstrcasecmp(a, e) == 0: the name `a` is what `e` spells up to its next '/'. */
  predicate Matches(a: string, e: string) {
    if a == "" || AtBoundary(e) then a == "" && AtBoundary(e)
    else if e[0] == '~' then
      |e| >= 2 && ((e[1] == '0' && a[0] == '~') || (e[1] == '1' && a[0] == '/')) && Matches(a[1..], e[2..])
    else ToLower(a[0]) == ToLower(e[0]) && Matches(a[1..], e[1..])
  }

  function SkipToSlash(p: string): string {
    if AtBoundary(p) then p else SkipToSlash(p[1..])
  }

  // ----- lookup

  function FirstMatch(ms: seq<Member>, p: string): (i: nat)
    ensures i <= |ms|
    ensures i < |ms| ==> Matches(ms[i].name, p)
    ensures forall j :: 0 <= j < i ==> !Matches(ms[j].name, p)
  {
    if ms == [] then 0
    else if Matches(ms[0].name, p) then 0
    else
      var r := FirstMatch(ms[1..], p);
      assert forall j :: 1 <= j < r + 1 ==> ms[j] == ms[1..][j - 1];
      r + 1
  }

  function Prepend(i: nat, r: Option<Loc>): Option<Loc> {
    match r case None => None case Some(loc) => Some([i] + loc)
  }

  /** cJSONUtils_GetPointer: the location `p` names below `t`, if any. */
  function Get(t: Json, p: string): Option<Loc> {
    if p == "" || p[0] != '/' then Some([])
    else
      match t
      case Array(items) =>
        var (which, rest) := ScanDigits(p[1..], 0);
        if !AtBoundary(rest) || which >= |items| then None
        else Prepend(which, Get(items[which], rest))
      case Object(ms) =>
        var i := FirstMatch(ms, p[1..]);
        if i == |ms| then None else Prepend(i, Get(ms[i].value, SkipToSlash(p[1..])))
      case _ => None
  }

  // ----- structured paths

  datatype Step = Idx(i: nat) | Fld(name: string)

  function StepText(s: Step): string {
    match s case Idx(i) => Decimal(i) case Fld(n) => Encode(n)
  }

  function PathText(steps: seq<Step>): (r: string)
    ensures AtBoundary(r)
  {
    if steps == [] then "" else "/" + StepText(steps[0]) + PathText(steps[1..])
  }

  ghost predicate NulFreeSteps(steps: seq<Step>) {
    forall i :: 0 <= i < |steps| && steps[i].Fld? ==> NulFree(steps[i].name)
  }

  /** The child a step selects; |Children(t)| when there is none. */
  function Select(t: Json, s: Step): (i: nat)
    ensures i <= |Children(t)|
  {
    match (t, s)
    case (Array(items), Idx(i)) => if i < |items| then i else |items|
    case (Object(ms), Fld(n)) => FindMember(ms, n)
    case _ => |Children(t)|
  }

  function Resolve(t: Json, steps: seq<Step>): Option<Loc>
    decreases |steps|
  {
    if steps == [] then Some([])
    else
      var i := Select(t, steps[0]);
      if i == |Children(t)| then None else Prepend(i, Resolve(Children(t)[i], steps[1..]))
  }

  /** One escaped character of the pointer matches one character of the name. */
  lemma MatchesChar(a: string, c: char, tail: string)
    ensures Matches(a, EncodeChar(c) + tail) <==>
              a != "" && ToLower(a[0]) == ToLower(c) && Matches(a[1..], tail)
  {
    var e := EncodeChar(c) + tail;
    assert e[|EncodeChar(c)|..] == tail;
  }

  lemma {:induction false} MatchesEncoded(a: string, b: string, rest: string)
    requires NulFree(a) && NulFree(b) && AtBoundary(rest)
    ensures Matches(a, Encode(b) + rest) <==> StrCaseCmp(a, b) == 0
  {
    if b == "" {
      assert Encode(b) + rest == rest;
    } else {
      var tail := Encode(b[1..]) + rest;
      assert Encode(b) + rest == EncodeChar(b[0]) + tail;
      MatchesChar(a, b[0], tail);
      if a != "" { MatchesEncoded(a[1..], b[1..], rest); }
    }
  }

  lemma {:induction false} SkipEncoded(b: string, rest: string)
    requires AtBoundary(rest)
    ensures SkipToSlash(Encode(b) + rest) == rest
  {
    if b == "" {
      assert Encode(b) + rest == rest;
    } else {
      var e := Encode(b) + rest;
      var tail := Encode(b[1..]) + rest;
      assert e == EncodeChar(b[0]) + tail;
      SkipEncoded(b[1..], rest);
      if |EncodeChar(b[0])| == 2 { assert e[1..][1..] == tail; } else { assert e[1..] == tail; }
    }
  }

  lemma {:induction false} DecodeEncode(s: string)
    ensures Decode(Encode(s)) == Some(s)
    ensures forall i :: 0 <= i < |Encode(s)| ==> Encode(s)[i] != '/'
  {
    if s != "" {
      DecodeEncode(s[1..]);
      var e := Encode(s);
      assert e[|EncodeChar(s[0])|..] == Encode(s[1..]);
      assert s == [s[0]] + s[1..];
    }
  }

  ghost predicate NulFreeNames(ms: seq<Member>) {
    forall i :: 0 <= i < |ms| ==> NulFree(ms[i].name)
  }

  lemma FirstMatchIsFind(ms: seq<Member>, name: string, rest: string)
    requires NulFreeNames(ms) && NulFree(name) && AtBoundary(rest)
    ensures FirstMatch(ms, Encode(name) + rest) == FindMember(ms, name)
  {
    var f, g := FirstMatch(ms, Encode(name) + rest), FindMember(ms, name);
    if f < |ms| { MatchesEncoded(ms[f].name, name, rest); }
    if g < |ms| { MatchesEncoded(ms[g].name, name, rest); }
  }

  lemma GetIdx(items: seq<Json>, i: nat, rest: string)
    requires AtBoundary(rest) && i < |items|
    ensures Get(Array(items), "/" + Decimal(i) + rest) == Prepend(i, Get(items[i], rest))
  {
    var p := "/" + Decimal(i) + rest;
    assert p[1..] == Decimal(i) + rest;
    ScanDecimal(i, rest);
  }

  lemma GetFld(ms: seq<Member>, n: string, rest: string)
    requires NulFreeNames(ms) && NulFree(n) && AtBoundary(rest)
    requires FindMember(ms, n) < |ms|
    ensures Get(Object(ms), "/" + Encode(n) + rest)
         == Prepend(FindMember(ms, n), Get(ms[FindMember(ms, n)].value, rest))
  {
    FirstMatchIsFind(ms, n, rest);
    SkipEncoded(n, rest);
    BehindSlash(Encode(n), rest);
    GetMember(ms, "/" + Encode(n) + rest, Encode(n) + rest, FindMember(ms, n), rest);
  }

  lemma BehindSlash(e: string, rest: string)
    ensures ("/" + e + rest)[0] == '/' && ("/" + e + rest)[1..] == e + rest
  {
  }

  lemma GetMember(ms: seq<Member>, p: string, q: string, i: nat, rest: string)
    requires p != "" && p[0] == '/' && p[1..] == q && i < |ms|
    requires FirstMatch(ms, q) == i && SkipToSlash(q) == rest
    ensures Get(Object(ms), p) == Prepend(i, Get(ms[i].value, rest))
  {
  }

  lemma WellFormedChild(t: Json, i: nat)
    requires WellFormed(t) && i < |Children(t)|
    ensures WellFormed(Children(t)[i])
  {
  }

  /** The pointer text of a resolvable path leads GetPointer to the same node. */
  lemma {:induction false} GetResolves(t: Json, steps: seq<Step>)
    requires WellFormed(t) && NulFreeSteps(steps) && Resolve(t, steps).Some?
    ensures Get(t, PathText(steps)) == Resolve(t, steps)
    decreases |steps|
  {
    if steps != [] {
      var rest := PathText(steps[1..]);
      var i := Select(t, steps[0]);
      WellFormedChild(t, i);
      GetResolves(Children(t)[i], steps[1..]);
      match steps[0] {
        case Idx(j) => GetIdx(t.items, j, rest);
        case Fld(n) => GetFld(t.members, n, rest);
      }
    }
  }

  /** At every node the steps come to, the next one is of its kind: a position in an array, a
      name in an object. */
  predicate OfKind(t: Json, steps: seq<Step>)
    decreases |steps|
  {
    steps == [] || (!t.Array? && !t.Object?) ||
    (steps[0].Idx? == t.Array?
     && var i := Select(t, steps[0]); i < |Children(t)| ==> OfKind(Children(t)[i], steps[1..]))
  }

  lemma GetIdxMisses(items: seq<Json>, i: nat, rest: string)
    requires AtBoundary(rest) && i >= |items|
    ensures Get(Array(items), "/" + Decimal(i) + rest) == None
  {
    var p := "/" + Decimal(i) + rest;
    assert p[1..] == Decimal(i) + rest;
    ScanDecimal(i, rest);
  }

  lemma GetFldMisses(ms: seq<Member>, n: string, rest: string)
    requires NulFreeNames(ms) && NulFree(n) && AtBoundary(rest)
    requires FindMember(ms, n) == |ms|
    ensures Get(Object(ms), "/" + Encode(n) + rest) == None
  {
    FirstMatchIsFind(ms, n, rest);
    BehindSlash(Encode(n), rest);
  }

  /** Such a path finds its node, and nothing when there is none. */
  lemma {:induction false} GetExactly(t: Json, steps: seq<Step>)
    requires WellFormed(t) && NulFreeSteps(steps) && OfKind(t, steps)
    ensures Get(t, PathText(steps)) == Resolve(t, steps)
    decreases |steps|
  {
    if steps != [] && (t.Array? || t.Object?) {
      var rest, i := PathText(steps[1..]), Select(t, steps[0]);
      if i < |Children(t)| {
        WellFormedChild(t, i);
        GetExactly(Children(t)[i], steps[1..]);
      }
      match steps[0] {
        case Idx(j) => if i < |Children(t)| { GetIdx(t.items, j, rest); } else { GetIdxMisses(t.items, j, rest); }
        case Fld(n) => if i < |Children(t)| { GetFld(t.members, n, rest); } else { GetFldMisses(t.members, n, rest); }
      }
    }
  }

  lemma DecodePair(c: char)
    ensures Decode(['~', c]) == Some(if c == '0' then "~" else "/")
  {
    assert ['~', c][2..] == "" && Decode("") == Some("");
    assert ['~'] + "" == "~" && ['/'] + "" == "/";
  }

  /** What a tilde means: with 0 itself, with 1 a slash. With anything else the decoder gives a
      slash too, but no name matches, and a final one has no meaning at all. */
  lemma Tildes(c: char, a: string, rest: string)
    ensures Decode("~0") == Some("~") && Decode("~1") == Some("/") && Decode("~") == None
    ensures c != '0' ==> Decode(['~', c]) == Some("/")
    ensures c != '0' && c != '1' ==> !Matches(a, "~" + [c] + rest)
    ensures !Matches(a, "~")
  {
    DecodePair('0');
    DecodePair('1');
    DecodePair(c);
    assert "~0" == ['~', '0'] && "~1" == ['~', '1'];
    assert ("~" + [c] + rest)[1] == c;
  }

  // ----- the pointer text of a node

  function StepTo(t: Json, i: nat): Step
    requires i < |Children(t)|
  {
    if t.Object? then Fld(t.members[i].name) else Idx(i)
  }

  function StepsTo(t: Json, loc: Loc): seq<Step>
    requires ValidLoc(t, loc)
    decreases |loc|
  {
    if loc == [] then [] else [StepTo(t, loc[0])] + StepsTo(Children(t)[loc[0]], loc[1..])
  }

  lemma SelectStepTo(t: Json, i: nat)
    requires WellFormed(t) && i < |Children(t)|
    ensures Select(t, StepTo(t, i)) == i
  {
    if t.Object? {
      var n := t.members[i].name;
      CmpTrichotomy(n, n);
      var f := FindMember(t.members, n);
      CmpTrichotomy(t.members[f].name, n);
      assert Key(t.members[f]) == Key(t.members[i]);
    }
  }

  lemma {:induction false} ResolveStepsTo(t: Json, loc: Loc)
    requires WellFormed(t) && ValidLoc(t, loc)
    ensures Resolve(t, StepsTo(t, loc)) == Some(loc) && NulFreeSteps(StepsTo(t, loc))
    decreases |loc|
  {
    if loc != [] {
      var c := Children(t)[loc[0]];
      WellFormedChild(t, loc[0]);
      ResolveStepsTo(c, loc[1..]);
      SelectStepTo(t, loc[0]);
      ResolveMore(t, StepTo(t, loc[0]), StepsTo(c, loc[1..]), loc);
    }
  }

  lemma ResolveMore(t: Json, s: Step, rest: seq<Step>, loc: Loc)
    requires loc != [] && Select(t, s) == loc[0] < |Children(t)|
    requires Resolve(Children(t)[loc[0]], rest) == Some(loc[1..])
    requires NulFreeSteps(rest) && (s.Fld? ==> NulFree(s.name))
    ensures Resolve(t, [s] + rest) == Some(loc) && NulFreeSteps([s] + rest)
  {
    assert ([s] + rest)[1..] == rest;
    assert loc == [loc[0]] + loc[1..];
  }

  /** Find and Get are inverse: the pointer built for any node of a tree with
      case-distinct sibling names leads back to that very node. */
  lemma GetUndoesFind(t: Json, loc: Loc)
    requires WellFormed(t) && ValidLoc(t, loc)
    ensures Get(t, PathText(StepsTo(t, loc))) == Some(loc)
  {
    ResolveStepsTo(t, loc);
    GetResolves(t, StepsTo(t, loc));
  }
}
