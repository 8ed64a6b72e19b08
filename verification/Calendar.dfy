/** Gregorian calendar arithmetic. Years and fixed day numbers are integers; the quotients the
    source takes as floored doubles are exact floor divisions, and its remainders truncate
    towards zero. */
module Calendar {
  /** The remainder with the dividend's sign. */
  function CMod(a: int, b: int): int
    requires b > 0
  {
    if a >= 0 then a % b else -((-a) % b)
  }

  /** GregorianLeapYearP. */
  function LeapYearP(year: int): bool {
    var tmp := CMod(year, 400);
    CMod(year, 4) == 0 && tmp != 100 && tmp != 200 && tmp != 300
  }

  /** FixedFromGregorian. */
  function FixedFromGregorian(month: int, day: int, year: int): int {
    365 * (year - 1) + (year - 1) / 4 - (year - 1) / 100 + (year - 1) / 400
    + (367 * month - 362) / 12
    + (if month <= 2 then 0 else if LeapYearP(year) then -1 else -2)
    + day
  }

  /** GregorianYearFromFixed. */
  function GregorianYearFromFixed(fixed: int): int {
    var d0 := fixed - 1;
    var n400 := d0 / 146097;
    var d1 := CMod(d0, 146097);
    var n100 := d1 / 36524;
    var d2 := CMod(d1, 36524);
    var n4 := d2 / 1461;
    var d3 := CMod(d2, 1461);
    var n1 := d3 / 365;
    var year := 400 * n400 + 100 * n100 + 4 * n4 + n1;
    if n100 == 4 || n1 == 4 then year else year + 1
  }

  // ----- the calendar itself

  /** The leap rule of the Gregorian calendar, for years on either side of year 1. */
  predicate Leap(year: int) {
    year % 4 == 0 && (year % 100 == 0 ==> year % 400 == 0)
  }

  function DaysInMonth(month: int, year: int): (n: nat)
    ensures 28 <= n <= 31
  {
    if month == 2 then (if Leap(year) then 29 else 28)
    else if month == 4 || month == 6 || month == 9 || month == 11 then 30
    else 31
  }

  function DaysInYear(year: int): nat {
    if Leap(year) then 366 else 365
  }

  datatype Date = Date(month: int, day: int, year: int) {
    predicate Valid() { year >= 1 && 1 <= month <= 12 && 1 <= day <= DaysInMonth(month, year) }

    function Fixed(): int { FixedFromGregorian(month, day, year) }

    /** The day after. */
    function Next(): (d: Date)
      requires Valid()
      ensures d.Valid()
    {
      if day < DaysInMonth(month, year) then Date(month, day + 1, year)
      else if month < 12 then Date(month + 1, 1, year)
      else Date(1, 1, year + 1)
    }
  }

  /** Days before a year, counted year by year. */
  function DaysBeforeYear(year: int): nat
    requires year >= 1
    decreases year
  {
    if year == 1 then 0 else DaysBeforeYear(year - 1) + DaysInYear(year - 1)
  }

  /** Days of a year before a month, counted month by month. */
  function DaysBeforeMonth(month: int, year: int): nat
    requires 1 <= month
    decreases month
  {
    if month == 1 then 0 else DaysBeforeMonth(month - 1, year) + DaysInMonth(month - 1, year)
  }

  /** Days before a year, in closed form and for any year. */
  function YearStart(year: int): int {
    365 * (year - 1) + (year - 1) / 4 - (year - 1) / 100 + (year - 1) / 400
  }

  /** The source's leap test is wrong for the negative centuries that are not leap years, and
      only for those. */
  lemma LeapYearPIff(year: int)
    ensures LeapYearP(year) == Leap(year) <==> !(year < 0 && year % 100 == 0 && year % 400 != 0)
  {
    InCycle(year);
    if year < 0 {
      InCycle(-year);
      var q, r := (-year) / 400, (-year) % 400;
      if r == 0 { Unique(year, 400, -q, 0); } else { Unique(year, 400, -q - 1, 400 - r); }
    }
  }

  /** Divisibility by 4 and 100 shows in the remainder by 400. */
  lemma InCycle(n: int)
    ensures n % 4 == n % 400 % 4 && n % 100 == n % 400 % 100
  {
    var q, r := n / 400, n % 400;
    Unique(n, 4, 100 * q + r / 4, r % 4);
    Unique(n, 100, 4 * q + r / 100, r % 100);
  }

  lemma YearStartStep(year: int)
    ensures YearStart(year + 1) == YearStart(year) + DaysInYear(year)
  {
    Quotient(year, 4);
    Quotient(year, 100);
    Quotient(year, 400);
    if year % 400 == 0 {
      assert year % 100 == 0;
    }
    if year % 100 == 0 { assert year % 4 == 0; }
  }

  lemma Quotient(n: int, d: int)
    requires d > 1
    ensures n / d == (n - 1) / d + (if n % d == 0 then 1 else 0)
  {
    var q, r := n / d, n % d;
    assert n == d * q + r;
    if r == 0 {
      Unique(n - 1, d, q - 1, d - 1);
    } else {
      Unique(n - 1, d, q, r - 1);
    }
  }

  lemma Unique(n: int, d: int, q: int, r: int)
    requires 0 <= r < d && n == d * q + r
    ensures n / d == q && n % d == r
  {
    var p, s := n / d, n % d;
    assert n == d * p + s;
    if p > q {
      Multiple(d, p, q);
    } else if p < q {
      Multiple(d, q, p);
    }
  }

  lemma Multiple(d: int, p: int, q: int)
    requires d > 0 && p > q
    ensures d * p >= d * q + d
    decreases p - q
  {
    assert d * (p - 1) + d == d * p;
    if p - 1 > q { Multiple(d, p - 1, q); }
  }

  lemma {:induction false} YearStartCounts(year: int)
    requires year >= 1
    ensures YearStart(year) == DaysBeforeYear(year)
    decreases year
  {
    if year > 1 {
      YearStartCounts(year - 1);
      YearStartStep(year - 1);
    }
  }

  lemma MonthsCount(month: int, year: int)
    requires 1 <= month <= 12
    ensures DaysBeforeMonth(month, year) ==
      (367 * month - 362) / 12 + (if month <= 2 then 0 else if Leap(year) then -1 else -2)
    decreases month
  {
    if month > 1 {
      MonthsCount(month - 1, year);
    }
  }

  /** The fixed number of a date counts the days from the first day of year 1. */
  lemma FixedCounts(d: Date)
    requires d.Valid()
    ensures d.Fixed() == DaysBeforeYear(d.year) + DaysBeforeMonth(d.month, d.year) + d.day
  {
    LeapYearPIff(d.year);
    YearStartCounts(d.year);
    MonthsCount(d.month, d.year);
  }

  lemma YearHasMonths(year: int)
    ensures DaysBeforeMonth(13, year) == DaysInYear(year)
  {
    MonthsCount(12, year);
  }

  /** Consecutive days get consecutive numbers. */
  lemma FixedOfNext(d: Date)
    requires d.Valid()
    ensures d.Next().Fixed() == d.Fixed() + 1
  {
    var n := d.Next();
    FixedCounts(d);
    FixedCounts(n);
    if n.year != d.year { YearHasMonths(d.year); }
  }

  lemma {:induction false} MonthsGrow(m: int, n: int, year: int)
    requires 1 <= m <= n
    ensures DaysBeforeMonth(m, year) + (if m < n then DaysInMonth(m, year) else 0) <= DaysBeforeMonth(n, year)
    decreases n - m
  {
    if m < n { MonthsGrow(m, n - 1, year); }
  }

  /** The days of a year are numbered within that year's span. */
  lemma FixedInYear(d: Date)
    requires d.Valid()
    ensures YearStart(d.year) < d.Fixed() <= YearStart(d.year + 1)
  {
    FixedCounts(d);
    YearStartCounts(d.year);
    YearStartStep(d.year);
    YearHasMonths(d.year);
    MonthsGrow(d.month, 13, d.year);
  }

  /** A year's place in the 400-, 100- and 4-year cycles. */
  lemma Cycles(y: int, a: int, b: int, c: int, e: int)
    requires y == 400 * a + 100 * b + 4 * c + e + 1
    requires 0 <= b < 4 && 0 <= c < 25 && 0 <= e < 4
    ensures YearStart(y) == 146097 * a + 36524 * b + 1461 * c + 365 * e
    ensures Leap(y) <==> e == 3 && (c == 24 ==> b == 3)
  {
    Unique(y - 1, 400, a, 100 * b + 4 * c + e);
    Unique(y - 1, 100, 4 * a + b, 4 * c + e);
    Unique(y - 1, 4, 100 * a + 25 * b + c, e);
    Quotient(y, 4);
    Quotient(y, 100);
    Quotient(y, 400);
    assert y % 4 == 0 <==> e == 3;
    assert y % 100 == 0 <==> e == 3 && c == 24;
    assert y % 400 == 0 <==> e == 3 && c == 24 && b == 3;
  }

  /** The source's divisions find the year of a day number in its own 400 years. */
  lemma Divisions(d1: int, b: int, c: int, e: int, k: int)
    requires 0 <= b < 4 && 0 <= c < 25 && 0 <= e < 4
    requires 0 <= k < (if e == 3 && (c == 24 ==> b == 3) then 366 else 365)
    requires d1 == 36524 * b + 1461 * c + 365 * e + k
    ensures 0 <= d1 < 146097
    ensures GregorianYearFromFixed(d1 + 1) == 100 * b + 4 * c + e + 1
  {
    var s := 365 * e + k;
    var r := 1461 * c + s;
    Unique(d1, 146097, 0, d1);
    if r == 36524 {
      Unique(d1, 36524, 4, 0);
      Unique(0, 1461, 0, 0);
      Unique(0, 365, 0, 0);
    } else {
      Unique(d1, 36524, b, r);
      Unique(r, 1461, c, s);
      if k < 365 { Unique(s, 365, e, k); } else { Unique(s, 365, 4, 0); }
    }
  }

  /** The code's year of day number `n`, once the whole 400-year cycles are taken off. */
  lemma WholeCycles(n: int, a: int)
    requires 0 <= n - 1 - 146097 * a < 146097
    requires n >= 1 || n - 1 == 146097 * a
    ensures GregorianYearFromFixed(n) == 400 * a + GregorianYearFromFixed(n - 146097 * a)
  {
    var d1 := n - 1 - 146097 * a;
    Unique(n - 1, 146097, a, d1);
    Unique(d1, 146097, 0, d1);
    if n < 1 {
      Unique(1 - n, 146097, -a, 0);
    }
    assert CMod(n - 1, 146097) == d1;
  }

  /** Before day 1 the remainders go negative and the year comes out too small. */
  lemma NegativeRemainder(n: int)
    requires n < 1 && (n - 1) % 146097 != 0
    ensures GregorianYearFromFixed(n) <= 400 * ((n - 1) / 146097)
  {
    var d0 := n - 1;
    var d1 := CMod(d0, 146097);
    assert d1 <= 0;
    if d1 == 0 {
      var q := (-d0) / 146097;
      assert -d0 == 146097 * q;
      Unique(d0, 146097, -q, 0);
    }
    var d2 := CMod(d1, 36524);
    var d3 := CMod(d2, 1461);
    assert d1 / 36524 <= -1 && d2 / 1461 <= 0 && d3 / 365 <= 0;
  }

  /** GregorianYearFromFixed finds the year of day number `n` exactly for the days from the
      first of year 1 on, and for the first days of the 400-year cycles before it. */
  lemma YearFromFixedIff(n: int, y: int)
    requires YearStart(y) < n <= YearStart(y + 1)
    ensures GregorianYearFromFixed(n) == y <==> n >= 1 || (n - 1) % 146097 == 0
  {
    var a, t := (y - 1) / 400, (y - 1) % 400;
    var b, u := t / 100, t % 100;
    var c, e := u / 4, u % 4;
    Cycles(y, a, b, c, e);
    YearStartStep(y);
    var k := n - 1 - YearStart(y);
    Divisions(n - 1 - 146097 * a, b, c, e, k);
    Unique(n - 1, 146097, a, n - 1 - 146097 * a);
    if n >= 1 || (n - 1) % 146097 == 0 {
      WholeCycles(n, a);
    } else {
      NegativeRemainder(n);
    }
  }

  /** The year of every valid date is recovered from its fixed number. */
  lemma YearRecovered(d: Date)
    requires d.Valid()
    ensures GregorianYearFromFixed(d.Fixed()) == d.year
  {
    FixedInYear(d);
    FixedCounts(d);
    YearFromFixedIff(d.Fixed(), d.year);
  }

  /** The day before year 1 is given to year -504. */
  lemma DayZero()
    ensures YearStart(0) < 0 <= YearStart(1) && GregorianYearFromFixed(0) == -504
  {
    Unique(-1, 146097, -1, 146096);
    Unique(-1, 36524, -1, 36523);
    Unique(-1, 1461, -1, 1460);
    Unique(-1, 365, -1, 364);
  }

  // ----- dates and the day numbers from 1 on are in bijection

  lemma {:induction false} EveryDayHasADate(n: int) returns (d: Date)
    requires n >= 1
    ensures d.Valid() && d.Fixed() == n
    decreases n
  {
    if n == 1 {
      d := Date(1, 1, 1);
    } else {
      var p := EveryDayHasADate(n - 1);
      d := p.Next();
      FixedOfNext(p);
    }
  }

  lemma FixedInjective(d: Date, f: Date)
    requires d.Valid() && f.Valid() && d.Fixed() == f.Fixed()
    ensures d == f
  {
    YearRecovered(d);
    YearRecovered(f);
    FixedCounts(d);
    FixedCounts(f);
    if d.month < f.month {
      MonthsGrow(d.month, f.month, d.year);
    } else {
      MonthsGrow(f.month, d.month, d.year);
    }
  }
}
