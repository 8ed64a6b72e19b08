/** The loops of JSON Pointer: matching, escaping into a buffer, decoding in place,
    searching a node and following a pointer. */
module PointerOps {
  import opened Seqs
  import opened Option
  import opened CString
  import opened CJson
  import opened Pointer

  /** cJSONUtils_Pstrcasecmp: 0 exactly when the name matches the pointer's next segment. */
  method Pstrcasecmp(a: string, e: string) returns (r: int)
    ensures r == 0 <==> Matches(a, e)
  {
    var i, j := 0, 0;
    while i < |a| && j < |e| && e[j] != '/'
      invariant 0 <= i <= |a| && 0 <= j <= |e|
      invariant Matches(a, e) <==> Matches(a[i..], e[j..])
      decreases |a| - i
    {
      ghost var x, y := a[i..], e[j..];
      assert x[1..] == a[i + 1..] && y[1..] == e[j + 1..];
      if e[j] == '~' {
        var next := if j + 1 < |e| then e[j + 1] else '\0';
        if !(next == '0' && a[i] == '~') && !(next == '1' && a[i] == '/') {
          return 1;
        }
        assert y[2..] == e[j + 2..];
        j := j + 1;
      } else if ToLower(a[i]) != ToLower(e[j]) {
        return 1;
      }
      i, j := i + 1, j + 1;
    }
    if (j < |e| && e[j] != '/') != (i < |a|) {
      return 1;
    }
    return 0;
  }

  /** cJSONUtils_PointerEncodedstrlen: the room the escaped name needs. */
  method PointerEncodedStrlen(s: string) returns (l: nat)
    ensures l == |Encode(s)|
  {
    l := 0;
    for i := 0 to |s|
      invariant l + |Encode(s[i..])| == |Encode(s)|
    {
      assert s[i..][1..] == s[i + 1..];
      if s[i] == '~' || s[i] == '/' { l := l + 1; }
      l := l + 1;
    }
  }

  lemma EncodeMore(before: string, c: char, rest: string, all: string)
    requires before + Encode([c] + rest) == all
    ensures (before + EncodeChar(c)) + Encode(rest) == all
    ensures |Encode([c] + rest)| == |EncodeChar(c)| + |Encode(rest)|
  {
    var s := [c] + rest;
    assert s[1..] == rest && s[0] == c;
  }

  /** cJSONUtils_PointerEncodedstrcpy: writes the escaped name and its terminator, no more. */
  method PointerEncodedStrcpy(d: array<char>, at: nat, s: string)
    requires at + |Encode(s)| < d.Length
    modifies d
    ensures d[..at + |Encode(s)|] == old(d[..at]) + Encode(s) && d[at + |Encode(s)|] == '\0'
    ensures d[at + |Encode(s)| + 1..] == old(d[at + |Encode(s)| + 1..])
  {
    var k := at;
    ghost var end := at + |Encode(s)|;
    for i := 0 to |s|
      invariant at <= k && k + |Encode(s[i..])| == end
      invariant d[..k] + Encode(s[i..]) == old(d[..at]) + Encode(s)
      invariant d[end + 1..] == old(d[end + 1..])
    {
      ghost var before := d[..k];
      assert s[i..] == [s[i]] + s[i + 1..];
      EncodeMore(before, s[i], s[i + 1..], old(d[..at]) + Encode(s));
      if s[i] == '/' {
        d[k], d[k + 1] := '~', '1';
        k := k + 2;
      } else if s[i] == '~' {
        d[k], d[k + 1] := '~', '0';
        k := k + 2;
      } else {
        d[k] := s[i];
        k := k + 1;
      }
      assert d[..k] == before + EncodeChar(s[i]);
    }
    d[k] := '\0';
    assert d[..k] == old(d[..at]) + Encode(s);
  }

  /** strcat behind the `n` characters a buffer holds. */
  method Strcat(d: array<char>, n: nat, s: string)
    requires n + |s| < d.Length && d[n] == '\0'
    modifies d
    ensures d[..n + |s|] == old(d[..n]) + s && d[n + |s|] == '\0'
  {
    ghost var before := d[..n];
    for i := 0 to |s|
      invariant d[..n + i] == before + s[..i]
    {
      d[n + i] := s[i];
      assert s[..i + 1] == s[..i] + [s[i]];
    }
    assert s[..|s|] == s;
    d[n + |s|] := '\0';
    assert d[..n + |s|] == before + s;
  }

  /** The "/name" segment followed by the rest, built in a buffer of computed size. */
  method FieldPath(name: string, found: string) returns (ret: array<char>)
    ensures fresh(ret) && ret.Length == |found| + |Encode(name)| + 2
    ensures ret[..ret.Length - 1] == "/" + Encode(name) + found && ret[ret.Length - 1] == '\0'
  {
    var l := PointerEncodedStrlen(name);
    ret := new char[|found| + l + 2];
    ret[0] := '/';
    assert ret[..1] == "/";
    PointerEncodedStrcpy(ret, 1, name);
    Strcat(ret, 1 + l, found);
  }

  /** Decoding takes one or two characters and gives one. */
  lemma DecodeStep(text: string, i: nat)
    requires i < |text| && Decode(text[i..]).Some?
    ensures var k := if text[i] == '~' then i + 2 else i + 1;
            var c := if text[i] != '~' then text[i] else if i + 1 < |text| && text[i + 1] == '0' then '~' else '/';
            k <= |text| && Decode(text[k..]).Some?
            && Decode(text[i..]).value == [c] + Decode(text[k..]).value
  {
    var s := text[i..];
    assert s[1..] == text[i + 1..];
    if |s| >= 2 { assert s[2..] == text[i + 2..]; }
  }

  lemma DecodeMore(text: string, i: nat, out: string, goal: string)
    requires i < |text| && Decode(text[i..]).Some? && out + Decode(text[i..]).value == goal
    ensures var k := if text[i] == '~' then i + 2 else i + 1;
            var c := if text[i] != '~' then text[i] else if i + 1 < |text| && text[i + 1] == '0' then '~' else '/';
            k <= |text| && Decode(text[k..]).Some? && (out + [c]) + Decode(text[k..]).value == goal
  {
    DecodeStep(text, i);
    var k := if text[i] == '~' then i + 2 else i + 1;
    var c := if text[i] != '~' then text[i] else if i + 1 < |text| && text[i + 1] == '0' then '~' else '/';
    Assoc(out, [c], Decode(text[k..]).value);
  }

  /** cJSONUtils_InplaceDecodePointerString: unescapes the string in its own buffer;
      the write position never overtakes the read position. */
  method InplaceDecode(buf: array<char>, n: nat) returns (m: nat)
    requires n < buf.Length && buf[n] == '\0' && NulFree(buf[..n])
    requires Decode(buf[..n]).Some?
    modifies buf
    ensures m <= n && Some(buf[..m]) == Decode(old(buf[..n])) && buf[m] == '\0'
  {
    ghost var text, goal, out := buf[..n], Decode(buf[..n]).value, "";
    assert text[0..] == text && out + goal == goal;
    var src, dst := 0, 0;
    while buf[src] != '\0'
      invariant 0 <= dst <= src <= n && |out| == dst
      invariant forall i :: src <= i < n ==> buf[i] == text[i]
      invariant buf[n] == '\0'
      invariant forall i :: 0 <= i < dst ==> buf[i] == out[i]
      invariant Decode(text[src..]).Some? && out + Decode(text[src..]).value == goal
      decreases n - src
    {
      DecodeMore(text, src, out, goal);
      var c := buf[src];
      if c == '~' {
        src := src + 1;
        c := if buf[src] == '0' then '~' else '/';
      }
      buf[dst] := c;
      out := out + [c];
      dst, src := dst + 1, src + 1;
    }
    m := dst;
    assert text[src..] == "";
    assert out == goal;
    buf[m] := '\0';
    assert buf[..m] == out;
  }

  lemma {:induction false} AtConcat(t: Json, a: Loc, b: Loc)
    requires ValidLoc(t, a)
    ensures ValidLoc(t, a + b) <==> ValidLoc(At(t, a), b)
    ensures ValidLoc(t, a + b) ==> At(t, a + b) == At(At(t, a), b)
    decreases |a|
  {
    if a == [] {
      assert a + b == b;
    } else {
      assert (a + b)[1..] == a[1..] + b;
      AtConcat(Children(t)[a[0]], a[1..], b);
    }
  }

  lemma PathOfChild(t: Json, below: Loc)
    requires ValidLoc(t, below) && below != []
    ensures PathText(StepsTo(t, below))
         == "/" + StepText(StepTo(t, below[0])) + PathText(StepsTo(Children(t)[below[0]], below[1..]))
  {
    assert StepsTo(t, below)[1..] == StepsTo(Children(t)[below[0]], below[1..]);
  }

  /** The segment for child `c` put in front of the path found below it. */
  method ChildPath(t: Json, c: nat, found: string) returns (path: string)
    requires c < |Children(t)|
    ensures path == "/" + StepText(StepTo(t, c)) + found
  {
    if t.Array? {
      path := "/" + Decimal(c) + found;
    } else {
      var ret := FieldPath(t.members[c].name, found);
      path := ret[..ret.Length - 1];
    }
  }

  /** cJSONUtils_FindPointerFromObjectTo: null exactly when the target is not the node
      itself nor below it; otherwise the escaped path from the node to the target. */
  method FindPointer(root: Json, node: Loc, target: Loc) returns (found: Option<string>)
    requires ValidLoc(root, node)
    ensures found.Some? <==> node <= target && ValidLoc(root, target)
    ensures found.Some? ==>
              ValidLoc(At(root, node), target[|node|..])
              && found.value == PathText(StepsTo(At(root, node), target[|node|..]))
    decreases At(root, node)
  {
    var t := At(root, node);
    if node == target {
      return Some("");
    }
    ghost var below := if node <= target then target[|node|..] else [];
    if node <= target {
      assert target == node + below;
      AtConcat(root, node, below);
    }
    for c := 0 to |Children(t)|
      invariant node <= target && ValidLoc(root, target) ==> c <= below[0]
    {
      ChildSmaller(t, c);
      AtConcat(root, node, [c]);
      var deeper := FindPointer(root, node + [c], target);
      if deeper.Some? {
        assert node + [c] <= target;
        assert target[|node|] == c && below[1..] == target[|node + [c]|..];
        PathOfChild(t, below);
        var path := ChildPath(t, c, deeper.value);
        return Some(path);
      }
    }
    return None;
  }

  function PrependAll(loc: Loc, r: Option<Loc>): Option<Loc> {
    match r case None => None case Some(l) => Some(loc + l)
  }

  lemma PrependOne(loc: Loc, i: nat, r: Option<Loc>)
    ensures PrependAll(loc, Prepend(i, r)) == PrependAll(loc + [i], r)
  {
    if r.Some? { assert loc + ([i] + r.value) == (loc + [i]) + r.value; }
  }

  /** The search among an object's members for the one the pointer's next segment names. */
  method FindSegment(ms: seq<Member>, p: string) returns (i: nat)
    ensures i == FirstMatch(ms, p)
  {
    i := 0;
    while i < |ms|
      invariant 0 <= i <= |ms| && forall j :: 0 <= j < i ==> !Matches(ms[j].name, p)
    {
      var r := Pstrcasecmp(ms[i].name, p);
      if r == 0 {
        break;
      }
      i := i + 1;
    }
  }

  /** cJSONUtils_GetPointer: walks the pointer text segment by segment. */
  method GetPointer(root: Json, pointer: string) returns (r: Option<Loc>)
    requires NulFree(pointer)
    ensures r == Get(root, pointer)
  {
    var node, p := root, pointer;
    var loc: Loc := [];
    assert forall l: Loc :: loc + l == l;
    while p != "" && p[0] == '/'
      invariant NulFree(p)
      invariant Get(root, pointer) == PrependAll(loc, Get(node, p))
      decreases node
    {
      ghost var here := p;
      p := p[1..];
      if node.Array? {
        var which: nat := 0;
        while p != "" && IsDigit(p[0])
          invariant NulFree(p)
          invariant ScanDigits(p, which) == ScanDigits(here[1..], 0)
          decreases |p|
        {
          which, p := 10 * which + DigitVal(p[0]), p[1..];
        }
        if !AtBoundary(p) || which >= |node.items| {
          return None;
        }
        PrependOne(loc, which, Get(node.items[which], p));
        node, loc := node.items[which], loc + [which];
      } else if node.Object? {
        var i := FindSegment(node.members, p);
        if i == |node.members| {
          return None;
        }
        while !AtBoundary(p)
          invariant NulFree(p)
          invariant SkipToSlash(p) == SkipToSlash(here[1..])
          decreases |p|
        {
          p := p[1..];
        }
        PrependOne(loc, i, Get(node.members[i].value, p));
        node, loc := node.members[i].value, loc + [i];
      } else {
        return None;
      }
    }
    assert loc + [] == loc;
    return Some(loc);
  }
}
