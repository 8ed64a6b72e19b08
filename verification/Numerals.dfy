/** Which number a JSON numeral is: whole part, fraction and exponent. */
module Numerals {
  import opened CString
  import opened CJson
  import opened Parser

  /** Converting to int drops the fraction. */
  lemma TruncIs(x: real)
    ensures var t := Trunc(x) as real;
            if x >= 0.0 then 0.0 <= t <= x < t + 1.0 else t - 1.0 < x <= t <= 0.0
  {
  }

  predicate Digits(s: string) {
    forall i :: 0 <= i < |s| ==> IsDigit(s[i])
  }

  /** What the digits behind a decimal point stand for. */
  function Fraction(ds: string): real
    requires Digits(ds)
  {
    if ds == "" then 0.0 else (DigitVal(ds[0]) as real + Fraction(ds[1..])) / 10.0
  }

  /** Multiplied by ten `e` times over, or divided. */
  function Scaled(x: real, e: int): real
    decreases if e < 0 then -e else e
  {
    if e == 0 then x else if e > 0 then Scaled(10.0 * x, e - 1) else Scaled(x / 10.0, e + 1)
  }

  lemma ScaledStep(x: real, e: int)
    ensures Scaled(x, e + 1) == Scaled(10.0 * x, e)
  {
    if e < 0 { assert 10.0 * x / 10.0 == x; }
  }

  lemma {:induction false} ScaledIs(x: real, e: int)
    ensures x * Pow10(e) == Scaled(x, e)
    decreases if e < 0 then -e else e
  {
    if e > 0 {
      ScaledIs(10.0 * x, e - 1);
      assert x * (10.0 * Pow10(e - 1)) == (10.0 * x) * Pow10(e - 1);
    } else if e < 0 {
      ScaledIs(x / 10.0, e + 1);
      assert x * (Pow10(e + 1) / 10.0) == (x / 10.0) * Pow10(e + 1);
    }
  }

  function Signed(neg: bool, x: real): real {
    if neg then -x else x
  }

  lemma {:induction false} NegativeScaled(x: real, e: int)
    ensures Scaled(-x, e) == -Scaled(x, e)
    decreases if e < 0 then -e else e
  {
    if e > 0 {
      NegativeScaled(10.0 * x, e - 1);
    } else if e < 0 {
      NegativeScaled(x / 10.0, e + 1);
      assert -x / 10.0 == -(x / 10.0);
    }
  }

  /** The number the parser makes of a sign, the digits read and a power of ten. */
  lemma NumberIs(neg: bool, n: nat, e: int, rest: string)
    ensures var x := Signed(neg, Scaled(n as real, e)); Number'(neg, n, e, rest) == Parsed(Number(Trunc(x), x), rest)
  {
    var s: real := if neg then -1.0 else 1.0;
    assert s * (n as real) == Signed(neg, n as real);
    ScaledIs(s * (n as real), e);
    NegativeScaled(n as real, e);
  }

  /** The digits go on being added up as if there were no point, and the power of ten makes up
      for it. */
  lemma {:induction false} ScanFraction(ds: string, rest: string, n: nat, e: int)
    requires Digits(ds) && (rest != "" ==> !IsDigit(rest[0]))
    ensures ScanDigits(ds + rest, n).1 == rest
    ensures Scaled(ScanDigits(ds + rest, n).0 as real, e - |ds|) == Scaled(n as real + Fraction(ds), e)
  {
    if ds == "" {
      assert ds + rest == rest;
    } else {
      var d, f := DigitVal(ds[0]), Fraction(ds[1..]);
      ScanTail(ds, rest, n);
      ScanFraction(ds[1..], rest, 10 * n + d, e - 1);
      assert e - 1 - |ds[1..]| == e - |ds|;
      var y := n as real + (d as real + f) / 10.0;
      assert 10.0 * y == (10 * n + d) as real + f;
      ScaledStep(y, e - 1);
    }
  }

  lemma ScanTail(ds: string, rest: string, n: nat)
    requires ds != "" && IsDigit(ds[0])
    ensures ScanDigits(ds + rest, n) == ScanDigits(ds[1..] + rest, 10 * n + DigitVal(ds[0]))
  {
    assert (ds + rest)[1..] == ds[1..] + rest;
  }

  /** An exponent, if there is one: its letter in either case, its sign, its digits. */
  datatype Exponent = Absent | Exp(letter: char, sign: string, digits: string)

  predicate Proper(e: Exponent) {
    e.Exp? ==> e.letter in "eE" && e.sign in {"", "+", "-"} && Digits(e.digits) && e.digits != ""
  }

  function ExponentText(e: Exponent): string {
    if e.Absent? then "" else [e.letter] + (e.sign + e.digits)
  }

  function ExponentValue(e: Exponent): int
    requires Proper(e)
  {
    if e.Absent? then 0 else if e.sign == "-" then -(DigitsValue(e.digits) as int) else DigitsValue(e.digits)
  }

  /** Nothing that could go on a number. */
  predicate Follows(rest: string) {
    rest != "" ==> !IsDigit(rest[0]) && rest[0] !in ".eE"
  }

  lemma SignedReads(s: string, sign: string, digits: string)
    requires s != "" && s[0] in "eE" && s[1..] == sign + digits && sign in {"", "+", "-"}
    requires digits != "" && IsDigit(digits[0])
    ensures var (n, rest) := ScanDigits(digits, 0); ParseExponent(s) == (if sign == "-" then -(n as int) else n, rest)
  {
    if sign == "" {
      assert s[1..] == digits && s[1] == digits[0];
    } else {
      assert s[2..] == s[1..][1..] == digits && s[1] == s[1..][0] == sign[0];
    }
  }

  lemma ExponentReads(e: Exponent, rest: string)
    requires Proper(e) && Follows(rest)
    ensures ParseExponent(ExponentText(e) + rest) == (ExponentValue(e), rest)
  {
    if e.Exp? {
      ScanValue(e.digits, rest);
      SignedReads(ExponentText(e) + rest, e.sign, e.digits + rest);
    } else {
      assert "" + rest == rest;
    }
  }

  /** A numeral: with at most one leading zero, and digits on both sides of a decimal point. */
  datatype Numeral = Numeral(neg: bool, whole: string, fraction: string, exponent: Exponent)

  predicate WholeDigits(s: string) {
    Digits(s) && s != "" && (|s| > 1 && s[0] == '0' ==> s[1] != '0')
  }

  predicate Valid(n: Numeral) {
    && WholeDigits(n.whole)
    && Digits(n.fraction) && Proper(n.exponent)
  }

  /** The text behind the whole part. */
  function TailText(n: Numeral, rest: string): string {
    (if n.fraction == "" then "" else "." + n.fraction) + (ExponentText(n.exponent) + rest)
  }

  function Spelled(n: Numeral, rest: string): string {
    (if n.neg then "-" else "") + (n.whole + TailText(n, rest))
  }

  function NumeralValue(n: Numeral): real
    requires Valid(n)
  {
    Signed(n.neg, Scaled(DigitsValue(n.whole) as real + Fraction(n.fraction), ExponentValue(n.exponent)))
  }

  lemma WholeReads(n: Numeral, rest: string)
    requires Valid(n) && Follows(rest)
    ensures var s := Spelled(n, rest);
            && s != "" && (s[0] == '-' || IsDigit(s[0]))
            && ParseNumber(s) == ParseFraction(n.neg, DigitsValue(n.whole), TailText(n, rest))
  {
    var s, tail := Spelled(n, rest), TailText(n, rest);
    assert tail != "" ==> !IsDigit(tail[0]) by {
      if n.fraction == "" && n.exponent.Absent? { assert tail == rest; }
    }
    assert (if n.neg then s[1..] else s) == n.whole + tail;
    WholeOnly(s, n.neg, n.whole, tail);
  }

  lemma WholeOnly(s: string, neg: bool, whole: string, tail: string)
    requires WholeDigits(whole) && (tail != "" ==> !IsDigit(tail[0]))
    requires s != "" && (neg <==> s[0] == '-') && (if neg then s[1..] else s) == whole + tail
    ensures s[0] == '-' || IsDigit(s[0])
    ensures ParseNumber(s) == ParseFraction(neg, DigitsValue(whole), tail)
  {
    var s1 := whole + tail;
    assert s1[0] == whole[0];
    WholeScan(whole, tail);
    NumberTurn(s, s1, if s1[0] == '0' then s1[1..] else s1, DigitsValue(whole), tail);
  }

  lemma WholeScan(whole: string, tail: string)
    requires WholeDigits(whole) && (tail != "" ==> !IsDigit(tail[0]))
    ensures var s2 := if (whole + tail)[0] == '0' then (whole + tail)[1..] else whole + tail;
            (DigitsValue(whole), tail) == if s2 != "" && '1' <= s2[0] <= '9' then ScanDigits(s2, 0) else (0, s2)
  {
    if whole[0] != '0' {
      ScanValue(whole, tail);
    } else {
      var digits := whole[1..];
      assert (whole + tail)[1..] == digits + tail;
      LeadingZero(whole);
      if digits == "" {
        assert digits + tail == tail;
      } else {
        ScanValue(digits, tail);
      }
    }
  }

  lemma {:induction false} LeadingZero(ds: string)
    requires Digits(ds) && ds != "" && ds[0] == '0'
    ensures DigitsValue(ds) == DigitsValue(ds[1..])
    decreases |ds|
  {
    var n := |ds| - 1;
    if n > 0 {
      LeadingZero(ds[..n]);
      assert ds[..n][1..] == ds[1..][..n - 1];
    }
  }

  /** A numeral is read to its end, as the number it stands for; the int beside it is that
      number without its fraction. */
  lemma NumberReads(n: Numeral, rest: string)
    requires Valid(n) && Follows(rest)
    ensures Spelled(n, rest) != "" && (Spelled(n, rest)[0] == '-' || IsDigit(Spelled(n, rest)[0]))
    ensures var x := NumeralValue(n); ParseNumber(Spelled(n, rest)) == Parsed(Number(Trunc(x), x), rest)
  {
    var w, e, tail := DigitsValue(n.whole), ExponentValue(n.exponent), ExponentText(n.exponent) + rest;
    WholeReads(n, rest);
    ExponentReads(n.exponent, rest);
    if n.fraction == "" {
      assert "" + tail == tail;
      FractionAbsent(n.neg, w, tail, e, rest);
    } else {
      assert tail != "" ==> !IsDigit(tail[0]) by {
        if n.exponent.Absent? { assert tail == rest; }
      }
      FractionReads(n.neg, w, n.fraction, tail, e, rest);
      assert TailText(n, rest) == "." + n.fraction + tail;
    }
  }

  lemma FractionAbsent(neg: bool, w: nat, tail: string, e: int, rest: string)
    requires ParseExponent(tail) == (e, rest) && (tail != "" ==> tail[0] != '.')
    ensures var x := Signed(neg, Scaled(w as real, e)); ParseFraction(neg, w, tail) == Parsed(Number(Trunc(x), x), rest)
  {
    NumberIs(neg, w, e, rest);
  }

  lemma FractionReads(neg: bool, w: nat, ds: string, tail: string, e: int, rest: string)
    requires Digits(ds) && ds != "" && (tail != "" ==> !IsDigit(tail[0])) && ParseExponent(tail) == (e, rest)
    ensures var x := Signed(neg, Scaled(w as real + Fraction(ds), e));
            ParseFraction(neg, w, "." + ds + tail) == Parsed(Number(Trunc(x), x), rest)
  {
    var m := ScanDigits(ds + tail, w).0;
    ScanFraction(ds, tail, w, e);
    assert "." + ds + tail == "." + (ds + tail);
    PointReads(neg, w, "." + ds + tail, ds + tail, tail);
    assert |"." + ds + tail| - 1 - |tail| == |ds|;
    NumberIs(neg, m, e - |ds|, rest);
  }

  lemma PointReads(neg: bool, w: nat, s: string, digits: string, tail: string)
    requires |s| > 1 && s[0] == '.' && s[1..] == digits && IsDigit(digits[0]) && ScanDigits(digits, w).1 == tail
    ensures var (e, rest) := ParseExponent(tail);
            ParseFraction(neg, w, s) == Number'(neg, ScanDigits(digits, w).0, e - (|s| - 1 - |tail|), rest)
  {
  }
}
