/** The transcoding steps of parse_string, bit by bit, and the buffer they write to. */
module Utf8Ops {
  import opened Bits
  import opened Parser

  /** (uc | 0x80) & 0xBF */
  function Continuation(uc: nat): nat {
    And(Or(uc, 0x80), 0xBF)
  }

  /** One bit of an Or with an even number, masked by an odd one. */
  lemma LowBit(v: nat, c: nat, m: nat)
    requires c > 0
    ensures And(Or(v, 2 * c), 2 * m + 1) == 2 * And(Or(v / 2, c), m) + v % 2
  {
    OrHalf(v, 2 * c);
    AndHalf(Or(v, 2 * c), 2 * m + 1);
  }

  lemma OrHalf(a: nat, b: nat)
    ensures Or(a, b) / 2 == Or(a / 2, b / 2) && (Or(a, b) % 2 == 1 <==> a % 2 == 1 || b % 2 == 1)
  {
  }

  lemma AndHalf(a: nat, b: nat)
    ensures And(a, b) == 2 * And(a / 2, b / 2) + (if a % 2 == 1 && b % 2 == 1 then 1 else 0)
  {
  }

  /** Bits 6 and 7: cleared and set. */
  lemma TopBits(v: nat)
    ensures And(Or(v, 2), 2) == 2
  {
    OrHalf(v, 2);
    OrHalf(v / 2, 1);
    AndHalf(Or(v, 2), 2);
    AndHalf(Or(v / 2, 1), 1);
  }

  /** A continuation byte holds the low six bits. */
  lemma ContinuationIs(uc: nat)
    ensures Continuation(uc) == 0x80 + uc % 64
  {
    var a := uc / 2;
    var b := a / 2;
    var c := b / 2;
    var d := c / 2;
    var e := d / 2;
    LowBit(uc, 64, 95);
    LowBit(a, 32, 47);
    LowBit(b, 16, 23);
    LowBit(c, 8, 11);
    LowBit(d, 4, 5);
    LowBit(e, 2, 2);
    TopBits(e / 2);
    ModUnique(uc, 64, e / 2, uc % 2 + 2 * (a % 2) + 4 * (b % 2) + 8 * (c % 2) + 16 * (d % 2) + 32 * (e % 2));
  }

  /** The first byte: the mark of the length above the bits that are left. */
  lemma Mark2(x: nat)
    requires x < 32
    ensures Or(x, 0xC0) == 0xC0 + x
  {
    assert Pow2(6) == 64;
    OrAbove(x, 6, 3);
  }

  lemma Mark3(x: nat)
    requires x < 16
    ensures Or(x, 0xE0) == 0xE0 + x
  {
    assert Pow2(5) == 32;
    OrAbove(x, 5, 7);
  }

  lemma Mark4(x: nat)
    requires x < 8
    ensures Or(x, 0xF0) == 0xF0 + x
  {
    assert Pow2(4) == 16;
    OrAbove(x, 4, 15);
  }

  lemma {:induction false} OrNothing(x: nat)
    ensures Or(x, 0) == x
  {
    if x > 0 { OrNothing(x / 2); }
  }

  /** 0x10000 + (((uc & 0x3FF) << 10) | (uc2 & 0x3FF)) */
  function Joined(uc: nat, uc2: nat): nat {
    0x1_0000 + Or(And(uc, 0x3FF) * 0x400, And(uc2, 0x3FF))
  }

  lemma JoinedIs(uc: nat, uc2: nat)
    ensures Joined(uc, uc2) == 0x1_0000 + (uc % 0x400) * 0x400 + uc2 % 0x400
  {
    assert Pow2(5) == 32;
    assert Pow2(10) == 0x400;
    AndOnes(uc, 10);
    AndOnes(uc2, 10);
    OrAbove(uc2 % 0x400, 10, uc % 0x400);
    OrSwap(uc % 0x400 * 0x400, uc2 % 0x400);
  }

  lemma {:induction false} OrSwap(a: nat, b: nat)
    ensures Or(a, b) == Or(b, a)
    decreases a + b
  {
    if a > 0 || b > 0 { OrSwap(a / 2, b / 2); }
  }

  /** firstByteMark */
  function FirstByteMark(len: nat): nat {
    if len == 2 then 0xC0 else if len == 3 then 0xE0 else if len == 4 then 0xF0 else 0
  }

  /** How many bytes a code point takes. */
  function Utf8Length(uc: nat): (n: nat)
    requires uc < 0x11_0000
    ensures n == |Utf8(uc)| && 1 <= n <= 4
  {
    if uc < 0x80 then 1 else if uc < 0x800 then 2 else if uc < 0x1_0000 then 3 else 4
  }

  function ContinuationByte(uc: nat): char {
    ContinuationIs(uc);
    Continuation(uc) as char
  }

  /** uc | firstByteMark[len], with the bits that are left. */
  function FirstByte(uc: nat, len: nat): (c: char)
    requires (len == 1 && uc < 0x80) || (len == 2 && uc < 32) || (len == 3 && uc < 16) || (len == 4 && uc < 8)
    ensures c as int == FirstByteMark(len) + uc
  {
    OrNothing(uc);
    if len == 2 then Mark2(uc); Or(uc, FirstByteMark(len)) as char
    else if len == 3 then Mark3(uc); Or(uc, FirstByteMark(len)) as char
    else if len == 4 then Mark4(uc); Or(uc, FirstByteMark(len)) as char
    else Or(uc, FirstByteMark(len)) as char
  }

  /** The bits above 6, 12 and 18, and how many are left for the first byte. */
  lemma Shifts(uc: nat)
    requires uc < 0x11_0000
    ensures uc / 64 / 64 == uc / 4096 && uc / 64 / 64 / 64 == uc / 262144 < 8
    ensures uc < 0x800 ==> uc / 64 < 32
    ensures uc < 0x1_0000 ==> uc / 64 / 64 < 16
  {
  }

  /** The bytes written for a code point, in the terms of the code. */
  function Utf8Code(uc: nat): (s: string)
    requires uc < 0x11_0000
    ensures |s| == Utf8Length(uc)
  {
    Shifts(uc);
    match Utf8Length(uc)
    case 1 => [FirstByte(uc, 1)]
    case 2 => [FirstByte(uc / 64, 2), ContinuationByte(uc)]
    case 3 => [FirstByte(uc / 64 / 64, 3), ContinuationByte(uc / 64), ContinuationByte(uc)]
    case _ =>
      [FirstByte(uc / 64 / 64 / 64, 4), ContinuationByte(uc / 64 / 64), ContinuationByte(uc / 64), ContinuationByte(uc)]
  }

  /** They are those of UTF-8. */
  lemma Utf8CodeIs(uc: nat)
    requires uc < 0x11_0000
    ensures Utf8Code(uc) == Utf8(uc)
  {
    if uc >= 0x1_0000 { Utf8Code4(uc); } else if uc >= 0x800 { Utf8Code3(uc); } else if uc >= 0x80 { Utf8Code2(uc); }
  }

  lemma Utf8Code2(uc: nat)
    requires 0x80 <= uc < 0x800
    ensures Utf8Code(uc) == Utf8(uc)
  {
    ContinuationChar(uc);
  }

  lemma Utf8Code3(uc: nat)
    requires 0x800 <= uc < 0x1_0000
    ensures Utf8Code(uc) == Utf8(uc)
  {
    Shifts(uc);
    ContinuationChar(uc);
    ContinuationChar(uc / 64);
  }

  lemma Utf8Code4(uc: nat)
    requires 0x1_0000 <= uc < 0x11_0000
    ensures Utf8Code(uc) == Utf8(uc)
  {
    Shifts(uc);
    ContinuationChar(uc);
    ContinuationChar(uc / 64);
    ContinuationChar(uc / 64 / 64);
  }

  lemma ContinuationChar(uc: nat)
    ensures ContinuationByte(uc) == (0x80 + uc % 64) as char
  {
    ContinuationIs(uc);
  }

  /** One step of the switch: a continuation byte in front of those already written. */
  method PutContinuation(out: array<char>, ptr: nat, uc: nat) returns (newPtr: nat, rest: nat)
    requires 0 < ptr <= out.Length
    modifies out
    ensures newPtr == ptr - 1 && rest == uc / 64 && out[newPtr] == ContinuationByte(uc)
    ensures forall i :: 0 <= i < out.Length && i != newPtr ==> out[i] == old(out[i])
  {
    newPtr := ptr - 1;
    out[newPtr] := ContinuationByte(uc);
    rest := uc / 64;
  }

  /** Writes the bytes of a code point from the last to the first, the code point shifted down
      by six bits after each but the first byte. */
  method WriteUtf8(out: array<char>, at: nat, uc: nat) returns (len: nat)
    requires uc < 0x11_0000 && at + Utf8Length(uc) <= out.Length
    modifies out
    ensures len == Utf8Length(uc) && out[at..at + len] == Utf8(uc)
    ensures forall i :: 0 <= i < out.Length && !(at <= i < at + len) ==> out[i] == old(out[i])
  {
    len := Utf8Length(uc);
    Shifts(uc);
    Utf8CodeIs(uc);
    var ptr, c := at + len, uc;
    if len >= 4 {
      ptr, c := PutContinuation(out, ptr, c);
    }
    if len >= 3 {
      ptr, c := PutContinuation(out, ptr, c);
    }
    if len >= 2 {
      ptr, c := PutContinuation(out, ptr, c);
    }
    ptr := ptr - 1;
    out[ptr] := FirstByte(c, len);
    assert out[at..at + len] == Utf8Code(uc);
  }
}
