/** NUL-terminated strings as the C library and cJSON see them: case folding,
    case-insensitive comparison, decimal numerals. */
module CString {

  /** A C string holds no terminator inside. */
  predicate NulFree(s: string) {
    forall i :: 0 <= i < |s| ==> s[i] != '\0'
  }

  /** tolower in the C locale. */
  function ToLower(c: char): char {
    if 'A' <= c <= 'Z' then (c as int + 32) as char else c
  }

  function Fold(s: string): (r: string)
    ensures |r| == |s|
  {
    seq(|s|, i requires 0 <= i < |s| => ToLower(s[i]))
  }

  /** The loop shared by cJSON_strcasecmp and cJSONUtils_strcasecmp. */
  function StrCaseCmp(a: string, b: string): int {
    if a == "" then (if b == "" then 0 else -(ToLower(b[0]) as int))
    else if b == "" then ToLower(a[0]) as int
    else if ToLower(a[0]) == ToLower(b[0]) then StrCaseCmp(a[1..], b[1..])
    else ToLower(a[0]) as int - ToLower(b[0]) as int
  }

  predicate Less(a: string, b: string) {
    StrCaseCmp(a, b) < 0
  }

  lemma FoldTail(a: string)
    requires a != ""
    ensures Fold(a) == [ToLower(a[0])] + Fold(a[1..])
    ensures Fold(a)[1..] == Fold(a[1..])
  {
  }

  /** Zero means equal up to case, and the sign flips with the arguments. */
  lemma {:induction false} CmpTrichotomy(a: string, b: string)
    requires NulFree(a) && NulFree(b)
    ensures StrCaseCmp(a, b) == 0 <==> Fold(a) == Fold(b)
    ensures StrCaseCmp(a, b) == -StrCaseCmp(b, a)
  {
    if a != "" { FoldTail(a); }
    if b != "" { FoldTail(b); }
    if a != "" && b != "" {
      assert Fold(a)[0] == ToLower(a[0]) && Fold(b)[0] == ToLower(b[0]);
      CmpTrichotomy(a[1..], b[1..]);
    }
  }

  lemma {:induction false} LessTransitive(a: string, b: string, c: string)
    requires NulFree(a) && NulFree(b) && NulFree(c)
    requires StrCaseCmp(a, b) <= 0 && StrCaseCmp(b, c) <= 0
    ensures StrCaseCmp(a, c) <= 0
    ensures StrCaseCmp(a, c) == 0 ==> StrCaseCmp(a, b) == 0
  {
    if a != "" && b != "" && c != "" && ToLower(a[0]) == ToLower(b[0]) == ToLower(c[0]) {
      LessTransitive(a[1..], b[1..], c[1..]);
    }
  }

  // ----- what the order is

  const UPPER := "ABCDEFGHIJKLMNOPQRSTUVWXYZ"
  const LOWER := "abcdefghijklmnopqrstuvwxyz"

  /** Each of the 26 letters goes to its other case, and nothing else changes. */
  lemma ToLowerIs(c: char, i: nat)
    requires i < 26
    ensures ToLower(UPPER[i]) == LOWER[i]
    ensures c !in UPPER ==> ToLower(c) == c
  {
    if 'A' <= c <= 'Z' { assert c == UPPER[c as int - 'A' as int]; }
  }

  /** The folded character at a position, 0 at the terminator. */
  function At0(s: string, k: nat): int
    requires k <= |s|
  {
    if k == |s| then 0 else ToLower(s[k]) as int
  }

  /** The first position at which the folded strings differ decides. */
  lemma {:induction false} FirstDifference(a: string, b: string, k: nat)
    requires k <= |a| && k <= |b| && forall j :: 0 <= j < k ==> ToLower(a[j]) == ToLower(b[j])
    requires At0(a, k) != At0(b, k)
    requires NulFree(a) && NulFree(b)
    ensures StrCaseCmp(a, b) == At0(a, k) - At0(b, k)
  {
    if k > 0 {
      assert At0(a, k) == At0(a[1..], k - 1) && At0(b, k) == At0(b[1..], k - 1);
      FirstDifference(a[1..], b[1..], k - 1);
    }
  }

  // ----- decimal numerals

  predicate IsDigit(c: char) {
    '0' <= c <= '9'
  }

  function DigitVal(c: char): (v: nat)
    requires IsDigit(c)
    ensures v < 10
  {
    c as int - '0' as int
  }

  function DigitChar(d: nat): (c: char)
    requires d < 10
    ensures IsDigit(c) && DigitVal(c) == d
  {
    ('0' as int + d) as char
  }

  /** The text sprintf("%d") gives a non-negative number. */
  function Decimal(n: nat): (s: string)
    ensures s != "" && forall i :: 0 <= i < |s| ==> IsDigit(s[i])
    ensures s[0] == '0' <==> n == 0
    ensures n == 0 ==> s == "0"
  {
    if n < 10 then [DigitChar(n)] else Decimal(n / 10) + [DigitChar(n % 10)]
  }

  function DecimalInt(n: int): string {
    if n < 0 then "-" + Decimal(-n) else Decimal(n)
  }

  /** The digit loop `acc = 10*acc + digit`: the value read and the text left. */
  function ScanDigits(s: string, acc: nat): (nat, string) {
    if s != "" && IsDigit(s[0]) then ScanDigits(s[1..], 10 * acc + DigitVal(s[0])) else (acc, s)
  }

  /** Scanning a numeral leaves its value in the accumulator. */
  lemma {:induction false} ScanDecimal(n: nat, rest: string)
    ensures ScanDigits(Decimal(n) + rest, 0) == ScanDigits(rest, n)
    decreases n
  {
    if n < 10 {
      var s := Decimal(n) + rest;
      assert s[1..] == rest;
    } else {
      var d := DigitChar(n % 10);
      var tail := [d] + rest;
      assert Decimal(n) + rest == Decimal(n / 10) + tail;
      ScanDecimal(n / 10, tail);
      assert tail[1..] == rest;
      assert 10 * (n / 10) + DigitVal(d) == n;
    }
  }

  lemma DigitIs(d: nat)
    requires d < 10
    ensures DigitChar(d) == "0123456789"[d]
  {
  }

  /** The number a row of digits stands for, leading zeros or not. */
  function DigitsValue(ds: string): nat
    requires forall i :: 0 <= i < |ds| ==> IsDigit(ds[i])
  {
    if ds == "" then 0 else 10 * DigitsValue(ds[..|ds| - 1]) + DigitVal(ds[|ds| - 1])
  }

  lemma {:induction false} ScanMore(ds: string, rest: string)
    requires forall i :: 0 <= i < |ds| ==> IsDigit(ds[i])
    ensures ScanDigits(ds + rest, 0) == ScanDigits(rest, DigitsValue(ds))
  {
    if ds == "" {
      assert ds + rest == rest;
    } else {
      var init, tail := ds[..|ds| - 1], [ds[|ds| - 1]] + rest;
      assert ds + rest == init + tail;
      ScanMore(init, tail);
      assert tail[1..] == rest;
    }
  }

  /** The digit loop reads exactly the digits in front, as the number they stand for. */
  lemma ScanValue(ds: string, rest: string)
    requires forall i :: 0 <= i < |ds| ==> IsDigit(ds[i])
    requires rest != "" ==> !IsDigit(rest[0])
    ensures ScanDigits(ds + rest, 0) == (DigitsValue(ds), rest)
  {
    ScanMore(ds, rest);
  }
}
