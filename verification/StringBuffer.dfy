/** The buffer of parse_string: a first pass measures it, a second decodes into it. */
module StringBuffer {
  import opened Seqs
  import opened Option
  import opened CString
  import opened Parser
  import opened Utf8Ops
  import opened JsonText
  import RoundTrip

  /** What the first pass counts behind the opening quote: one for every character, and one for
      a backslash with the character it escapes. */
  function Measured(s: string): nat {
    if s == "" || s[0] == '\"' then 0
    else if s[0] == '\\' && |s| >= 2 then 1 + Measured(s[2..])
    else 1 + Measured(s[1..])
  }

  method Measure(s: string) returns (len: nat)
    ensures len == Measured(s)
  {
    var ptr := s;
    len := 0;
    while ptr != "" && ptr[0] != '\"'
      invariant len + Measured(ptr) == Measured(s)
      decreases |ptr|
    {
      len := len + 1;
      ptr := ptr[if ptr[0] == '\\' && |ptr| >= 2 then 2 else 1..];
    }
  }

  /** The first pass, started at `t`, comes to stand exactly `n` characters further on. */
  predicate Lands(t: string, n: nat) {
    if n == 0 then true
    else if t == "" || t[0] == '\"' then false
    else if t[0] == '\\' then |t| >= 2 && n >= 2 && Lands(t[2..], n - 2)
    else Lands(t[1..], n - 1)
  }

  /** What it counts on the way. */
  function Counted(t: string, n: nat): nat
    requires Lands(t, n)
  {
    if n == 0 then 0
    else if t[0] == '\\' then 1 + Counted(t[2..], n - 2)
    else 1 + Counted(t[1..], n - 1)
  }

  lemma {:induction false} MeasuredFrom(t: string, n: nat)
    requires Lands(t, n)
    ensures n <= |t| && Measured(t) == Counted(t, n) + Measured(t[n..])
  {
    if n > 0 {
      var k := if t[0] == '\\' then 2 else 1;
      MeasuredFrom(t[k..], n - k);
      assert t[k..][n - k..] == t[n..];
    }
  }

  /** Up to the closing quote no backslash is the last character, and behind every \\u the first
      pass comes to stand behind the four characters that the decoder takes. */
  predicate Regular(s: string)
    decreases |s|
  {
    if s == "" || s[0] == '\"' then true
    else if s[0] != '\\' then Regular(s[1..])
    else if |s| < 2 then false
    else if s[1] != 'u' then Regular(s[2..])
    else |s| >= 6 && Lands(s[2..], 4) && Regular(s[6..])
  }

  predicate FourHex(s: string) {
    |s| >= 4 && forall i :: 0 <= i < 4 ==> HexVal(s[i]) >= 0
  }

  /** Hex digits are counted one by one. */
  lemma {:induction false} HexCounted(s: string, n: nat)
    requires n <= |s| && forall i :: 0 <= i < n ==> HexVal(s[i]) >= 0
    ensures Lands(s, n) && Counted(s, n) == n
  {
    if n > 0 {
      assert HexVal(s[0]) >= 0;
      HexCounted(s[1..], n - 1);
    }
  }

  lemma MeasuredEscape(s: string)
    requires |s| >= 6 && s[0] == '\\' && s[1] == 'u' && Lands(s[2..], 4)
    ensures Measured(s) == 1 + Counted(s[2..], 4) + Measured(s[6..])
    ensures FourHex(s[2..]) ==> Counted(s[2..], 4) == 4
    ensures !FourHex(s[2..]) ==> Hex4(s[2..]) == 0
  {
    MeasuredFrom(s[2..], 4);
    assert s[2..][4..] == s[6..];
    if FourHex(s[2..]) { HexCounted(s[2..], 4); }
  }

  /** The escape at the front of `t` is the first of a surrogate pair. */
  predicate FirstOfPair(t: string) {
    |t| >= 6 && 0xD800 <= Hex4(t) <= 0xDBFF && t[4] == '\\' && t[5] == 'u'
  }

  /** A single escape takes no more room than was counted for it. */
  lemma UnitFits(t: string)
    requires |t| >= 4 && Lands(t, 4) && !FirstOfPair(t)
    requires (FourHex(t) ==> Counted(t, 4) == 4) && (!FourHex(t) ==> Hex4(t) == 0)
    ensures ParseUnicode(t).Some? && ParseUnicode(t).value.1 == 4 && |ParseUnicode(t).value.0| <= Counted(t, 4)
  {
  }

  /** Neither does a pair. */
  lemma PairFits(s: string)
    requires |s| >= 6 && s[0] == '\\' && s[1] == 'u' && Regular(s) && FirstOfPair(s[2..])
    ensures |s| >= 12 && Regular(s[12..])
    ensures ParseUnicode(s[2..]).Some? && ParseUnicode(s[2..]).value.1 == 10
    ensures |ParseUnicode(s[2..]).value.0| + Measured(s[12..]) <= Measured(s)
  {
    var u := s[6..];
    assert u[0] == '\\' && u[1] == 'u' && u[2..] == s[8..] && u[6..] == s[12..];
    MeasuredEscape(s);
    MeasuredEscape(u);
    PairBytes(s[2..]);
  }

  lemma PairBytes(t: string)
    requires |t| >= 10 && FirstOfPair(t)
    ensures ParseUnicode(t).Some? && ParseUnicode(t).value.1 == 10 && |ParseUnicode(t).value.0| <= 4
  {
  }

  lemma EscapeFits(s: string)
    requires |s| >= 2 && s[0] == '\\' && s[1] == 'u' && Regular(s)
    ensures ParseUnicode(s[2..]).Some?
    ensures var (bytes, k) := ParseUnicode(s[2..]).value;
            Regular(s[2 + k..]) && |bytes| + Measured(s[2 + k..]) <= Measured(s)
  {
    if FirstOfPair(s[2..]) {
      PairFits(s);
    } else {
      MeasuredEscape(s);
      UnitFits(s[2..]);
    }
  }

  /** For regular text the measured length is enough for the decoded string. */
  lemma {:induction false} MeasuredCovers(s: string)
    requires Regular(s)
    ensures Unescape(s).Parsed? && |Unescape(s).value| <= Measured(s)
    decreases |s|
  {
    if s != "" && s[0] != '\"' {
      if s[0] != '\\' {
        MeasuredCovers(s[1..]);
      } else if s[1] != 'u' {
        MeasuredCovers(s[2..]);
      } else {
        EscapeFits(s);
        MeasuredCovers(s[2 + ParseUnicode(s[2..]).value.1..]);
      }
    }
  }

  // ----- text that is not regular

  /** Whether the first pass lands depends only on the characters passed. */
  lemma {:induction false} LandsPrefix(t: string, x: string, n: nat)
    requires n <= |t|
    ensures Lands(t + x, n) == Lands(t, n)
    decreases n
  {
    if n > 0 && t[0] != '\"' {
      var k := if t[0] == '\\' then 2 else 1;
      if k <= n {
        assert (t + x)[k..] == t[k..] + x;
        LandsPrefix(t[k..], x, n - k);
      }
    }
  }

  /** A backslash at the end of `t` takes the next character along. */
  predicate Straddles(t: string) {
    Lands(t + "a", |t| + 1)
  }

  lemma LastStraddles(t: string)
    requires t == "\\"
    ensures Straddles(t)
  {
    assert (t + "a")[2..] == "";
  }

  /** The first pass stops inside `t`, at a quote. */
  lemma {:induction false} StopsInside(t: string, x: string)
    requires !Lands(t, |t|) && !Straddles(t)
    ensures Measured(t + x) <= |t|
    decreases |t|
  {
    var s := t + x;
    if t[0] != '\"' {
      if t[0] == '\\' {
        if |t| == 1 {
          LastStraddles(t);
          assert false;
        } else {
          assert s[2..] == t[2..] + x && (t + "a")[2..] == t[2..] + "a";
          StopsInside(t[2..], x);
        }
      } else {
        assert s[1..] == t[1..] + x && (t + "a")[1..] == t[1..] + "a";
        StopsInside(t[1..], x);
      }
    }
  }

  /** The first pass goes on one character behind `t`. */
  lemma {:induction false} GoesPast(t: string, c: char, y: string)
    requires !Lands(t, |t|) && Straddles(t)
    ensures Measured(t + ([c] + y)) <= |t| + Measured(y)
    decreases |t|
  {
    var s := t + ([c] + y);
    if t[0] == '\\' {
      if |t| == 1 {
        assert s[2..] == y;
      } else {
        assert s[2..] == t[2..] + ([c] + y) && (t + "a")[2..] == t[2..] + "a";
        GoesPast(t[2..], c, y);
      }
    } else {
      assert s[1..] == t[1..] + ([c] + y) && (t + "a")[1..] == t[1..] + "a";
      GoesPast(t[1..], c, y);
    }
  }

  function As(m: nat): (r: string)
    ensures |r| == m && forall i :: 0 <= i < m ==> r[i] == 'a'
  {
    seq(m, _ => 'a')
  }

  /** What to append to four characters behind which the first pass does not stand: plain text
      where it stops inside, and an escaped quote first where it goes past. */
  function Overlong(four: string, m: nat): string {
    (if Straddles(four) then "\\\"" else "") + (As(m) + "\"")
  }

  /** That much is decoded behind them, and next to nothing counted. */
  lemma OverlongDecodes(four: string, m: nat)
    requires |four| == 4 && !Lands(four, 4)
    ensures var x := Overlong(four, m);
            && Unescape(x).Parsed? && |Unescape(x).value| >= m && Measured(four + x) <= 4
  {
    var y := As(m) + "\"";
    assert As(m) + "\"" + "" == y;
    Plain(As(m), "");
    if Straddles(four) {
      var x := "\\\"" + y;
      assert x == Overlong(four, m);
      assert x[2..] == y && x[0] == '\\' && x[1] == '\"';
      assert x == ['\\'] + (['\"'] + y);
      GoesPast(four, '\\', ['\"'] + y);
    } else {
      assert "" + y == y;
      StopsInside(four, y);
    }
  }

  /** Four characters behind which the first pass does not stand are not four hex digits. */
  lemma NotHex(four: string, x: string)
    requires |four| == 4 && !Lands(four, 4)
    ensures Hex4(four + x) == 0
  {
    if forall i :: 0 <= i < 4 ==> HexVal(four[i]) >= 0 {
      HexCounted(four, 4);
    }
    assert forall i :: 0 <= i < 4 ==> (four + x)[i] == four[i];
  }

  lemma {:induction false} Plain(v: string, rest: string)
    requires forall i :: 0 <= i < |v| ==> v[i] != '\"' && v[i] != '\\'
    ensures Unescape(v + "\"" + rest) == Parsed(v, rest)
  {
    var s := v + "\"" + rest;
    if v == "" {
      assert s[1..] == rest;
    } else {
      assert s[1..] == v[1..] + "\"" + rest && v == [v[0]] + v[1..];
      Plain(v[1..], rest);
    }
  }

  lemma StepPlain(c: char, x: string)
    requires c != '\"' && c != '\\'
    ensures Unescape([c] + x) == Prefixed([c], Unescape(x)) && Measured([c] + x) == 1 + Measured(x)
  {
    assert ([c] + x)[1..] == x;
  }

  lemma StepShort(c: char, x: string)
    requires c != 'u'
    ensures Unescape(['\\', c] + x) == Prefixed([Unescaped(c)], Unescape(x))
    ensures Measured(['\\', c] + x) == 1 + Measured(x)
  {
    assert (['\\', c] + x)[2..] == x;
  }

  /** The digits of a high surrogate. */
  predicate High(four: string)
    requires |four| == 4
  {
    0xD800 <= Hex4(four) <= 0xDBFF
  }

  /** The four characters and what follows make a surrogate pair of escapes. */
  predicate Paired(four: string, x: string)
    requires |four| == 4
  {
    High(four) && |x| >= 2 && x[0] == '\\' && x[1] == 'u'
  }

  function Escape4(four: string): string {
    ['\\', 'u'] + four
  }

  lemma Hex4Prefix(four: string, x: string)
    requires |four| == 4
    ensures Hex4(four + x) == Hex4(four)
  {
  }

  lemma BehindEscape(four: string, x: string)
    requires |four| == 4
    ensures var s := Escape4(four) + x;
            |s| >= 6 && s[0] == '\\' && s[1] == 'u' && s[2..] == four + x && s[6..] == x
  {
  }

  /** A single escape: what it gives, and what is counted for it. */
  lemma StepUnit(four: string, x: string)
    requires |four| == 4 && !Paired(four, x)
    ensures var s := Escape4(four) + x;
            && Unescape(s).Parsed? == Unescape(x).Parsed?
            && (Unescape(x).Parsed? ==> |Unescape(s).value| >= |Unescape(x).value|)
            && Measured(s) == 1 + Measured(four + x)
            && (Lands(four, 4) ==> Measured(s) <= 5 + Measured(x))
  {
    BehindEscape(four, x);
    Hex4Prefix(four, x);
    LandsPrefix(four, x, 4);
    if Lands(four, 4) { MeasuredFrom(four + x, 4); CountedBound(four + x, 4); }
    assert (four + x)[4..] == x;
  }

  lemma {:induction false} CountedBound(t: string, n: nat)
    requires Lands(t, n)
    ensures Counted(t, n) <= n
  {
    if n > 0 { CountedBound(t[if t[0] == '\\' then 2 else 1..], if t[0] == '\\' then n - 2 else n - 1); }
  }

  /** A pair of escapes is taken at once. */
  lemma StepPair(four: string, four2: string, x: string)
    requires |four| == |four2| == 4 && High(four)
    ensures var s := Escape4(four) + (Escape4(four2) + x);
            && Unescape(s).Parsed? == Unescape(x).Parsed?
            && (Unescape(x).Parsed? ==> |Unescape(s).value| >= |Unescape(x).value|)
            && Measured(s) == 6 + Measured(four2 + x)
            && (Lands(four2, 4) ==> Measured(s) <= 10 + Measured(x))
  {
    PairParses(four, four2, x);
    PairMeasured(four, four2, x);
  }

  lemma PairParses(four: string, four2: string, x: string)
    requires |four| == |four2| == 4 && High(four)
    ensures var s := Escape4(four) + (Escape4(four2) + x);
            && Unescape(s).Parsed? == Unescape(x).Parsed?
            && (Unescape(x).Parsed? ==> |Unescape(s).value| >= |Unescape(x).value|)
  {
    var y := Escape4(four2) + x;
    var s := Escape4(four) + y;
    BehindEscape(four, y);
    Hex4Prefix(four, y);
    PairText(four, four2, x);
    var u := ParseUnicode(four + y);
    assert u.Some? && u.value.1 == 10;
    TakesEscape(s, u.value.0, 10, x);
  }

  lemma TakesEscape(s: string, bytes: string, k: nat, x: string)
    requires |s| >= 2 && s[0] == '\\' && s[1] == 'u' && ParseUnicode(s[2..]) == Some((bytes, k))
    requires 2 + k <= |s| && s[2 + k..] == x
    ensures Unescape(s) == Prefixed(bytes, Unescape(x))
  {
  }

  lemma PairMeasured(four: string, four2: string, x: string)
    requires |four| == |four2| == 4 && High(four)
    ensures var s := Escape4(four) + (Escape4(four2) + x);
            && Measured(s) == 6 + Measured(four2 + x)
            && (Lands(four2, 4) ==> Measured(s) <= 10 + Measured(x))
  {
    var y := Escape4(four2) + x;
    BehindEscape(four, y);
    BehindEscape(four2, x);
    PairHex(four, y);
    LandsPrefix(four2, x, 4);
    if Lands(four2, 4) { MeasuredFrom(four2 + x, 4); CountedBound(four2 + x, 4); }
    assert (four2 + x)[4..] == x;
  }

  lemma PairText(four: string, four2: string, x: string)
    requires |four| == |four2| == 4
    ensures var t := four + (Escape4(four2) + x);
            |t| >= 10 && t[4] == '\\' && t[5] == 'u' && t[6..] == four2 + x && t[10..] == x
    ensures (Escape4(four) + (Escape4(four2) + x))[12..] == x
  {
  }

  /** A surrogate is written with four hex digits. */
  lemma PairHex(four: string, y: string)
    requires |four| == 4 && Hex4(four) != 0
    ensures Measured(four + y) == 4 + Measured(y)
  {
    HexCounted(four + y, 4);
    MeasuredFrom(four + y, 4);
    assert (four + y)[4..] == y;
  }

  /** The decoded string of `t` is longer than measured, by more than `n`. */
  ghost predicate Overflows(t: string, n: nat) {
    Unescape(t).Parsed? && |Unescape(t).value| > Measured(t) + n
  }

  /** How `s` falls apart behind an escape. */
  lemma EscapeSplits(s: string)
    requires |s| >= 6 && s[0] == '\\' && s[1] == 'u'
    ensures s == Escape4(s[2..6]) + s[6..] && Lands(s[2..], 4) == Lands(s[2..6], 4)
  {
    assert s[2..] == s[2..6] + s[6..];
    LandsPrefix(s[2..6], s[6..], 4);
  }

  lemma PrefixOf(p: string, x: string, k: nat, t: string)
    requires k <= |x|
    ensures (p + x)[..|p| + k] + t == p + (x[..k] + t)
  {
  }

  /** Text that is not regular, as far as its first irregular escape, can be continued so that
      its decoded string outgrows its buffer by any amount. */
  lemma {:induction false} IrregularOverflows(s: string, n: nat) returns (k: nat, t: string)
    requires !Regular(s) && Unescape(s).Parsed?
    ensures 6 <= k <= |s| && Overflows(s[..k] + t, n)
    decreases |s|
  {
    if s[0] != '\\' {
      k, t := IrregularOverflows(s[1..], n);
      PlainCarries(s[0], s[1..][..k] + t, n);
      assert s == [s[0]] + s[1..];
      PrefixOf([s[0]], s[1..], k, t);
      k := k + 1;
    } else if s[1] != 'u' {
      k, t := IrregularOverflows(s[2..], n);
      ShortCarries(s[1], s[2..][..k] + t, n);
      assert s == ['\\', s[1]] + s[2..];
      PrefixOf(['\\', s[1]], s[2..], k, t);
      k := k + 2;
    } else {
      EscapeSplits(s);
      k, t := EscapeOverflows(s[2..6], s[6..], n);
    }
  }

  lemma PlainCarries(c: char, z: string, n: nat)
    requires c != '\"' && c != '\\' && Overflows(z, n)
    ensures Overflows([c] + z, n)
  {
    StepPlain(c, z);
  }

  lemma ShortCarries(c: char, z: string, n: nat)
    requires c != 'u' && Overflows(z, n)
    ensures Overflows(['\\', c] + z, n)
  {
    StepShort(c, z);
  }

  lemma {:induction false} EscapeOverflows(four: string, x: string, n: nat) returns (k: nat, t: string)
    requires |four| == 4 && !Regular(Escape4(four) + x) && Unescape(Escape4(four) + x).Parsed?
    ensures 6 <= k <= 6 + |x| && Overflows((Escape4(four) + x)[..k] + t, n)
    decreases 6 + |x|, 0
  {
    if !Lands(four, 4) {
      k, t := 6, Overlong(four, n + 6);
      StrayOverflows(four, x, n);
    } else if !Paired(four, x) {
      UnitIrregular(four, x);
      k, t := UnitThenOverflows(four, x, n);
    } else {
      PairIrregular(four, x);
      k, t := PairOverflows(four, x, n);
    }
  }

  lemma {:induction false} UnitThenOverflows(four: string, x: string, n: nat) returns (k: nat, t: string)
    requires |four| == 4 && Lands(four, 4) && !Paired(four, x)
    requires !Regular(x) && Unescape(x).Parsed?
    ensures 6 <= k <= 6 + |x| && Overflows((Escape4(four) + x)[..k] + t, n)
    decreases 5 + |x|
  {
    k, t := IrregularOverflows(x, n + 5);
    UnitCarriesOn(four, x, k, t, n);
    k := k + 6;
  }

  lemma StrayOverflows(four: string, x: string, n: nat)
    requires |four| == 4 && !Lands(four, 4)
    ensures Overflows((Escape4(four) + x)[..6] + Overlong(four, n + 6), n)
  {
    var t := Overlong(four, n + 6);
    UnitOverflows(four, n);
    PrefixOf(Escape4(four), x, 0, t);
    assert x[..0] + t == t;
  }

  lemma UnitCarriesOn(four: string, x: string, k: nat, t: string, n: nat)
    requires |four| == 4 && Lands(four, 4) && !Paired(four, x) && 6 <= k <= |x| && Overflows(x[..k] + t, n + 5)
    ensures Overflows((Escape4(four) + x)[..k + 6] + t, n)
  {
    UnitCarries(four, x, k, t, n);
    PrefixOf(Escape4(four), x, k, t);
  }

  lemma UnitIrregular(four: string, x: string)
    requires |four| == 4 && Lands(four, 4) && !Paired(four, x) && Unescape(Escape4(four) + x).Parsed?
    requires !Regular(Escape4(four) + x)
    ensures !Regular(x) && Unescape(x).Parsed?
  {
    BehindEscape(four, x);
    LandsPrefix(four, x, 4);
    StepUnit(four, x);
  }

  lemma UnitOverflows(four: string, n: nat)
    requires |four| == 4 && !Lands(four, 4)
    ensures Overflows(Escape4(four) + Overlong(four, n + 6), n)
  {
    OverlongDecodes(four, n + 6);
    NotHex(four, "");
    assert four + "" == four;
    StepUnit(four, Overlong(four, n + 6));
  }

  lemma UnitCarries(four: string, x: string, k: nat, t: string, n: nat)
    requires |four| == 4 && Lands(four, 4) && !Paired(four, x) && 6 <= k <= |x| && Overflows(x[..k] + t, n + 5)
    ensures Overflows(Escape4(four) + (x[..k] + t), n)
  {
    assert (x[..k] + t)[0] == x[0] && (x[..k] + t)[1] == x[1];
    StepUnit(four, x[..k] + t);
  }

  lemma PairIrregular(four: string, x: string)
    requires |four| == 4 && Lands(four, 4) && Paired(four, x) && Unescape(Escape4(four) + x).Parsed?
    requires !Regular(Escape4(four) + x)
    ensures |x| >= 6 && !Regular(x) && (Lands(x[2..6], 4) ==> !Regular(x[6..]) && Unescape(x[6..]).Parsed?)
  {
    BehindEscape(four, x);
    LandsPrefix(four, x, 4);
    PairLong(four, x);
    EscapeSplits(x);
    StepPair(four, x[2..6], x[6..]);
  }

  lemma {:induction false} PairOverflows(four: string, x: string, n: nat) returns (k: nat, t: string)
    requires |four| == 4 && Paired(four, x) && |x| >= 6
    requires Lands(x[2..6], 4) ==> !Regular(x[6..]) && Unescape(x[6..]).Parsed?
    ensures 6 <= k <= 6 + |x| && Overflows((Escape4(four) + x)[..k] + t, n)
    decreases |x|, 1
  {
    EscapeSplits(x);
    var four2, y := x[2..6], x[6..];
    if !Lands(four2, 4) {
      k, t := 12, Overlong(four2, n + 11);
      SecondOverflows(four, four2, n);
      assert x[..6] == Escape4(four2);
      PrefixOf(Escape4(four), x, 6, t);
    } else {
      k, t := IrregularOverflows(y, n + 10);
      SecondCarries(four, four2, y[..k] + t, n);
      PrefixOf(Escape4(four2), y, k, t);
      PrefixOf(Escape4(four), x, 6 + k, t);
      k := k + 12;
    }
  }

  lemma SecondOverflows(four: string, four2: string, n: nat)
    requires |four| == |four2| == 4 && High(four) && !Lands(four2, 4)
    ensures Overflows(Escape4(four) + (Escape4(four2) + Overlong(four2, n + 11)), n)
  {
    OverlongDecodes(four2, n + 11);
    StepPair(four, four2, Overlong(four2, n + 11));
  }

  lemma SecondCarries(four: string, four2: string, z: string, n: nat)
    requires |four| == |four2| == 4 && High(four) && Lands(four2, 4) && Overflows(z, n + 10)
    ensures Overflows(Escape4(four) + (Escape4(four2) + z), n)
  {
    StepPair(four, four2, z);
  }

  /** A pair cut short is not parsed. */
  lemma PairLong(four: string, x: string)
    requires |four| == 4 && Paired(four, x) && Unescape(Escape4(four) + x).Parsed?
    ensures |x| >= 6
  {
    BehindEscape(four, x);
    Hex4Prefix(four, x);
    var t := four + x;
    assert t[4] == '\\' && t[5] == 'u';
  }

  /** The smallest case: the first pass stops at the quote behind \\u, which the decoder jumps
      over. One byte and the terminator are reserved, five bytes are decoded. */
  lemma MeasuredTooShort(s: string)
    requires s == "\\u\"aaaaaaaa\""
    ensures Measured(s) == 1 && Unescape(s) == Parsed("aaaaa", "") && !Regular(s)
  {
    var t := s[2..];
    assert t[0] == '\"' && Hex4(t) == 0;
    assert ParseUnicode(t) == Some(("", 4));
    assert s[6..] == "aaaaa" + "\"" + "";
    Plain("aaaaa", "");
    assert "" + "aaaaa" == "aaaaa";
  }

  /** The bytes of a code point, if there is one. */
  function Bytes(uc: Option<nat>): string
    requires uc.Some? ==> uc.value < 0x11_0000
  {
    match uc case None => "" case Some(c) => Utf8(c)
  }

  /** The code point that a \\u escape names, if it is a valid one, and how many characters
      behind the `u` belong to it. */
  method CodePoint(s: string) returns (uc: Option<nat>, k: nat)
    requires ParseUnicode(s).Some?
    ensures (uc.Some? ==> uc.value < 0x11_0000) && ParseUnicode(s) == Some((Bytes(uc), k))
  {
    var c := Hex4(s);
    if (0xDC00 <= c <= 0xDFFF) || c == 0 {
      return None, 4;
    }
    if 0xD800 <= c <= 0xDBFF {
      if |s| < 6 || s[4] != '\\' || s[5] != 'u' {
        return None, 4;
      }
      var c2 := Hex4(s[6..]);
      if c2 < 0xDC00 || c2 > 0xDFFF {
        return None, 10;
      }
      JoinedIs(c, c2);
      return Some(Joined(c, c2)), 10;
    }
    return Some(c), 4;
  }

  /** Writes the bytes of a code point, if there is one. */
  method PutPoint(out: array<char>, n: nat, uc: Option<nat>) returns (m: nat)
    requires (uc.Some? ==> uc.value < 0x11_0000) && n + |Bytes(uc)| <= out.Length
    modifies out
    ensures m == n + |Bytes(uc)| && out[..m] == old(out[..n]) + Bytes(uc)
  {
    m := n;
    if uc.Some? {
      var len := WriteUtf8(out, n, uc.value);
      m := n + len;
      assert out[..n] == old(out[..n]) && out[..m] == out[..n] + out[n..m];
    }
  }

  lemma PrefixedTwice(a: string, b: string, r: Parsed<string>)
    ensures Prefixed(a, Prefixed(b, r)) == Prefixed(a + b, r)
  {
    if r.Parsed? { Assoc(a, b, r.value); }
  }

  /** One character of a string: what it stands for and how long it is written. */
  lemma ShortStep(s: string)
    requires s != "" && s[0] != '\"' && (s[0] == '\\' ==> |s| >= 2 && s[1] != 'u')
    ensures var c, k := if s[0] == '\\' then Unescaped(s[1]) else s[0], if s[0] == '\\' then 2 else 1;
            k <= |s| && Unescape(s) == Prefixed([c], Unescape(s[k..]))
  {
  }

  /** Writes one character if the string so far leaves room for it and a terminator. */
  method PutChar(out: array<char>, n: nat, c: char, over: bool, ghost done: string) returns (over': bool)
    requires out.Length > 0 && n == |done| && (over <==> n >= out.Length) && (!over ==> out[..n] == done)
    modifies out
    ensures (over' <==> n + 1 >= out.Length) && (!over' ==> out[..n + 1] == done + [c])
  {
    over' := over || n + 1 >= out.Length;
    if !over' {
      out[n] := c;
    }
  }

  /** Writes the bytes of a code point in the same way. */
  method PutBytes(out: array<char>, n: nat, uc: Option<nat>, over: bool, ghost done: string) returns (over': bool)
    requires out.Length > 0 && n == |done| && (over <==> n >= out.Length) && (!over ==> out[..n] == done)
    requires uc.Some? ==> uc.value < 0x11_0000
    modifies out
    ensures (over' <==> n + |Bytes(uc)| >= out.Length) && (!over' ==> out[..n + |Bytes(uc)|] == done + Bytes(uc))
  {
    over' := over || n + |Bytes(uc)| >= out.Length;
    if !over' {
      var m := PutPoint(out, n, uc);
    }
  }

  /** parse_string: the first pass measures the buffer, the second decodes into it. `over` says
      that the decoded string and its terminator do not fit; the source then writes behind the
      buffer, and here the value is what it would have decoded. */
  method ParseStringAt(s: string) returns (r: Parsed<string>, over: bool, out: array<char>)
    ensures r == ParseString(s) && fresh(out)
    ensures r.Parsed? ==> out.Length == Measured(s[1..]) + 1 && (over <==> |r.value| > Measured(s[1..]))
    ensures r.Parsed? && !over ==> out[..|r.value|] == r.value && out[|r.value|] == '\0'
  {
    if s == "" || s[0] != '\"' {
      out := new char[0];
      return Fail, false, out;
    }
    var len := Measure(s[1..]);
    out := new char[len + 1];
    var ptr, text := s[1..], "";
    over := false;
    NothingDone(Unescape(ptr));
    while ptr != "" && ptr[0] != '\"'
      invariant (over <==> |text| >= out.Length) && (!over ==> out[..|text|] == text)
      invariant Prefixed(text, Unescape(ptr)) == Unescape(s[1..])
      decreases |ptr|
    {
      if ptr[0] == '\\' && |ptr| == 1 {
        return Fail, over, out;
      } else if ptr[0] == '\\' && ptr[1] == 'u' {
        if ParseUnicode(ptr[2..]).None? {
          return Fail, over, out;
        }
        var uc, k := CodePoint(ptr[2..]);
        PrefixedTwice(text, Bytes(uc), Unescape(ptr[2 + k..]));
        over := PutBytes(out, |text|, uc, over, text);
        text, ptr := text + Bytes(uc), ptr[2 + k..];
      } else {
        ShortStep(ptr);
        var c, k := if ptr[0] == '\\' then Unescaped(ptr[1]) else ptr[0], if ptr[0] == '\\' then 2 else 1;
        PrefixedTwice(text, [c], Unescape(ptr[k..]));
        over := PutChar(out, |text|, c, over, text);
        text, ptr := text + [c], ptr[k..];
      }
    }
    if !over {
      out[|text|] := '\0';
    }
    assert text + "" == text;
    r := Parsed(text, if ptr == "" then "" else ptr[1..]);
  }

  lemma NothingDone(r: Parsed<string>)
    ensures Prefixed("", r) == r
  {
    if r.Parsed? { assert "" + r.value == r.value; }
  }

  lemma RegularChar(c: char, tail: string)
    requires c != '\0' && Regular(tail)
    ensures Regular(EscapeChar(c) + tail)
  {
    var e := EscapeChar(c);
    var s := e + tail;
    RoundTrip.EscapeForms(c, e);
    assert s[|e|..] == tail;
    if |e| > 2 {
      RoundTrip.HexDigitVal(c as int / 16);
      RoundTrip.HexDigitVal(c as int % 16);
      assert s[2..][0] == '0' && s[2..][1] == '0' && s[2..][2] == e[4] && s[2..][3] == e[5];
      HexCounted(s[2..], 4);
    }
  }

  // ----- whole texts

  /** Behind every quote of the text the string that would start there is regular. */
  ghost predicate AllRegular(s: string) {
    forall i :: 0 <= i < |s| && s[i] == '\"' ==> Regular(s[i + 1..])
  }

  lemma DropRegular(s: string, k: nat)
    requires AllRegular(s) && k <= |s|
    ensures AllRegular(s[k..])
  {
    var a := s[k..];
    forall i | 0 <= i < |a| && a[i] == '\"'
      ensures Regular(a[i + 1..])
    {
      assert s[k + i] == a[i] && s[k + i + 1..] == a[i + 1..];
    }
  }

  lemma {:induction false} SkipRegular(s: string)
    requires AllRegular(s)
    ensures AllRegular(Skip(s))
  {
    if s != "" && s[0] as int <= 32 {
      DropRegular(s, 1);
      SkipRegular(s[1..]);
    }
  }

  lemma {:induction false} UnescapeRegular(s: string)
    requires AllRegular(s)
    ensures Unescape(s).Parsed? ==> AllRegular(Unescape(s).rest)
    decreases |s|
  {
    if s != "" && s[0] != '\"' {
      if s[0] != '\\' {
        DropRegular(s, 1);
        UnescapeRegular(s[1..]);
      } else if |s| >= 2 && s[1] != 'u' {
        DropRegular(s, 2);
        UnescapeRegular(s[2..]);
      } else if |s| >= 2 && ParseUnicode(s[2..]).Some? {
        var k := 2 + ParseUnicode(s[2..]).value.1;
        DropRegular(s, k);
        UnescapeRegular(s[k..]);
      }
    } else if s != "" {
      DropRegular(s, 1);
    }
  }

  lemma {:induction false} DigitsRegular(s: string, acc: nat)
    requires AllRegular(s)
    ensures AllRegular(ScanDigits(s, acc).1)
  {
    if s != "" && IsDigit(s[0]) {
      DropRegular(s, 1);
      DigitsRegular(s[1..], 10 * acc + DigitVal(s[0]));
    }
  }

  lemma ExponentRegular(s: string)
    requires AllRegular(s)
    ensures AllRegular(ParseExponent(s).1)
  {
    if s != "" && (s[0] == 'e' || s[0] == 'E') {
      var k := if |s| > 1 && (s[1] == '+' || s[1] == '-') then 2 else 1;
      DropRegular(s, k);
      DigitsRegular(s[k..], 0);
    }
  }

  /** The fraction and the exponent of a number. */
  lemma FractionRegular(s: string, n: nat)
    requires AllRegular(s)
    ensures var frac := |s| > 1 && s[0] == '.' && IsDigit(s[1]);
            AllRegular(ParseExponent(if frac then ScanDigits(s[1..], n).1 else s).1)
  {
    if |s| > 1 && s[0] == '.' && IsDigit(s[1]) {
      DropRegular(s, 1);
      DigitsRegular(s[1..], n);
      ExponentRegular(ScanDigits(s[1..], n).1);
    } else {
      ExponentRegular(s);
    }
  }

  lemma NumberRegular(s: string)
    requires s != "" && (s[0] == '-' || IsDigit(s[0])) && AllRegular(s)
    ensures AllRegular(ParseNumber(s).rest)
  {
    DropRegular(s, 1);
    var s1 := if s[0] == '-' then s[1..] else s;
    if s1 != "" { DropRegular(s1, 1); }
    var s2 := if s1 != "" && s1[0] == '0' then s1[1..] else s1;
    DigitsRegular(s2, 0);
    var (n, s3) := if s2 != "" && '1' <= s2[0] <= '9' then ScanDigits(s2, 0) else (0, s2);
    FractionRegular(s3, n);
  }

  /** Strings of such a text fit their buffers. */
  lemma StringFits(s: string)
    requires s != "" && s[0] == '\"' && AllRegular(s)
    ensures ParseString(s).Parsed? && |ParseString(s).value| <= Measured(s[1..])
  {
    MeasuredCovers(s[1..]);
  }
}
