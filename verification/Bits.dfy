/** Bit operations on non-negative machine integers, bit by bit from the low end. */
module Bits {
  function Pow2(k: nat): (r: nat)
    ensures r >= 1
  {
    if k == 0 then 1 else 2 * Pow2(k - 1)
  }

  /** x >> k */
  function Shr(x: nat, k: nat): nat {
    if k == 0 then x else Shr(x / 2, k - 1)
  }

  /** a | b */
  function Or(a: nat, b: nat): nat {
    if a == 0 && b == 0 then 0
    else 2 * Or(a / 2, b / 2) + (if a % 2 == 1 || b % 2 == 1 then 1 else 0)
  }

  /** a & b */
  function And(a: nat, b: nat): nat {
    if a == 0 || b == 0 then 0
    else 2 * And(a / 2, b / 2) + (if a % 2 == 1 && b % 2 == 1 then 1 else 0)
  }

  /** x | x >> m: one step of filling the bits below the highest. */
  function Smear(x: nat, m: nat): nat {
    Or(x, Shr(x, m))
  }

  /** The five steps of pow2gt. */
  function Fill(x: nat): nat {
    Smear(Smear(Smear(Smear(Smear(x, 1), 2), 4), 8), 16)
  }

  /** cJSON's pow2gt on 1 <= x. */
  function Pow2gt(x: nat): nat
    requires x >= 1
  {
    Fill(x - 1) + 1
  }

  /** One of the n lowest bits is set. */
  predicate Any(x: nat, n: nat) {
    n > 0 && (x % 2 == 1 || Any(x / 2, n - 1))
  }

  lemma {:induction false} AnyAdd(x: nat, a: nat, b: nat)
    ensures Any(x, a + b) <==> Any(x, a) || Any(Shr(x, a), b)
    decreases a
  {
    if a > 0 { AnyAdd(x / 2, a - 1, b); }
  }

  lemma {:induction false} AnyBelow(x: nat, n: nat)
    requires 0 < x < Pow2(n)
    ensures Any(x, n)
    decreases n
  {
    if x % 2 == 0 { AnyBelow(x / 2, n - 1); }
  }

  lemma {:induction false} ShrHalf(x: nat, k: nat)
    ensures Shr(x, k) / 2 == Shr(x / 2, k)
    decreases k
  {
    if k > 0 { ShrHalf(x / 2, k - 1); }
  }

  lemma SmearHalf(x: nat, m: nat)
    ensures Smear(x, m) / 2 == Smear(x / 2, m)
    ensures Smear(x, m) % 2 == 1 <==> x % 2 == 1 || Shr(x, m) % 2 == 1
  {
    ShrHalf(x, m);
  }

  lemma {:induction false} ShrSmear(x: nat, m: nat, k: nat)
    ensures Shr(Smear(x, m), k) == Smear(Shr(x, k), m)
    decreases k
  {
    if k > 0 {
      SmearHalf(x, m);
      ShrSmear(x / 2, m, k - 1);
    }
  }

  lemma FillHalf(x: nat)
    ensures Fill(x) / 2 == Fill(x / 2)
  {
    var a := Smear(x, 1);
    var b := Smear(a, 2);
    var c := Smear(b, 4);
    var d := Smear(c, 8);
    SmearHalf(x, 1);
    SmearHalf(a, 2);
    SmearHalf(b, 4);
    SmearHalf(c, 8);
    SmearHalf(d, 16);
  }

  /** After the first i steps the low bit says whether any of the 2^i lowest was set. */
  lemma LowBit1(x: nat)
    ensures Smear(x, 1) % 2 == 1 <==> Any(x, 2)
  {
    SmearHalf(x, 1);
    AnyAdd(x, 1, 1);
    assert Any(Shr(x, 1), 1) <==> Shr(x, 1) % 2 == 1;
  }

  lemma LowBit2(x: nat)
    ensures Smear(Smear(x, 1), 2) % 2 == 1 <==> Any(x, 4)
  {
    SmearHalf(Smear(x, 1), 2);
    ShrSmear(x, 1, 2);
    LowBit1(x);
    LowBit1(Shr(x, 2));
    AnyAdd(x, 2, 2);
  }

  lemma LowBit3(x: nat)
    ensures Smear(Smear(Smear(x, 1), 2), 4) % 2 == 1 <==> Any(x, 8)
  {
    SmearHalf(Smear(Smear(x, 1), 2), 4);
    ShrSmear(Smear(x, 1), 2, 4);
    ShrSmear(x, 1, 4);
    LowBit2(x);
    LowBit2(Shr(x, 4));
    AnyAdd(x, 4, 4);
  }

  lemma LowBit4(x: nat)
    ensures Smear(Smear(Smear(Smear(x, 1), 2), 4), 8) % 2 == 1 <==> Any(x, 16)
  {
    SmearHalf(Smear(Smear(Smear(x, 1), 2), 4), 8);
    ShrSmear(Smear(Smear(x, 1), 2), 4, 8);
    ShrSmear(Smear(x, 1), 2, 8);
    ShrSmear(x, 1, 8);
    LowBit3(x);
    LowBit3(Shr(x, 8));
    AnyAdd(x, 8, 8);
  }

  lemma LowBit5(x: nat)
    ensures Fill(x) % 2 == 1 <==> Any(x, 32)
  {
    SmearHalf(Smear(Smear(Smear(Smear(x, 1), 2), 4), 8), 16);
    ShrSmear(Smear(Smear(Smear(x, 1), 2), 4), 8, 16);
    ShrSmear(Smear(Smear(x, 1), 2), 4, 16);
    ShrSmear(Smear(x, 1), 2, 16);
    ShrSmear(x, 1, 16);
    LowBit4(x);
    LowBit4(Shr(x, 16));
    AnyAdd(x, 16, 16);
  }

  lemma {:induction false} FillIsOnes(x: nat, k: nat)
    requires x < Pow2(k) && (k > 0 ==> x >= Pow2(k - 1)) && k <= 32
    ensures Fill(x) == Pow2(k) - 1
    decreases k
  {
    FillHalf(x);
    if k == 0 {
      assert Fill(0) == 0;
    } else {
      FillIsOnes(x / 2, k - 1);
      AnyMore(x, k, 32);
      LowBit5(x);
    }
  }

  lemma AnyMore(x: nat, k: nat, n: nat)
    requires 0 < x < Pow2(k) && k <= n
    ensures Any(x, n)
  {
    AnyBelow(x, k);
    AnyAdd(x, k, n - k);
    assert k + (n - k) == n;
  }

  /** The smallest k with x < 2^k. */
  lemma {:induction false} BitLength(x: nat, n: nat) returns (k: nat)
    requires x < Pow2(n)
    ensures k <= n && x < Pow2(k) && (k > 0 ==> x >= Pow2(k - 1))
  {
    if n == 0 || x >= Pow2(n - 1) { k := n; } else { k := BitLength(x, n - 1); }
  }

  /** pow2gt gives the least power of two that is at least its argument. */
  lemma Pow2gtIsLeast(x: nat) returns (k: nat)
    requires 1 <= x <= Pow2(30)
    ensures k <= 30 && Pow2gt(x) == Pow2(k) && x <= Pow2(k) && (k > 0 ==> Pow2(k - 1) < x)
  {
    k := BitLength(x - 1, 30);
    FillIsOnes(x - 1, k);
  }

  /** Number of significant bits. */
  function Width(mask: nat): nat {
    if mask == 0 then 0 else 1 + Width(mask / 2)
  }

  lemma {:induction false} WidthBounds(mask: nat)
    ensures mask < Pow2(Width(mask)) && (mask > 0 ==> Pow2(Width(mask) - 1) <= mask)
  {
    if mask > 0 { WidthBounds(mask / 2); }
  }

  /** A mask of k ones keeps the remainder by 2^k. */
  lemma {:induction false} AndOnes(x: nat, k: nat)
    ensures And(x, Pow2(k) - 1) == x % Pow2(k)
    decreases k
  {
    if k > 0 {
      AndOnes(x / 2, k - 1);
      HalfMod(x, Pow2(k - 1));
    }
  }

  lemma HalfMod(x: nat, m: nat)
    requires m > 0
    ensures x % (2 * m) == 2 * (x / 2 % m) + x % 2
  {
    var q, r := x / 2 / m, x / 2 % m;
    assert x / 2 == m * q + r;
    assert x == (2 * m) * q + (2 * r + x % 2) by { assert 2 * (m * q) == (2 * m) * q; }
    ModUnique(x, 2 * m, q, 2 * r + x % 2);
  }

  lemma ModUnique(x: nat, d: nat, q: nat, r: nat)
    requires r < d && x == d * q + r
    ensures x % d == r
  {
    var p, s := x / d, x % d;
    assert x == d * p + s;
    if p > q { MulAbove(d, p, q); } else if p < q { MulAbove(d, q, p); }
  }

  lemma {:induction false} MulAbove(d: nat, p: nat, q: nat)
    requires p > q
    ensures d * p >= d * q + d
    decreases p - q
  {
    assert d * (p - 1) + d == d * p;
    if p - 1 > q { MulAbove(d, p - 1, q); }
  }

  /** Setting bits above the k that a number uses adds them. */
  lemma {:induction false} OrAbove(x: nat, k: nat, c: nat)
    requires x < Pow2(k)
    ensures Or(x, c * Pow2(k)) == x + c * Pow2(k)
    decreases k
  {
    if k == 0 {
      OrZero(c);
    } else {
      assert c * Pow2(k) == 2 * (c * Pow2(k - 1));
      OrAbove(x / 2, k - 1, c);
    }
  }

  lemma {:induction false} OrZero(c: nat)
    ensures Or(0, c) == c
  {
    if c > 0 { OrZero(c / 2); }
  }
}
