/** Calendar arithmetic of JavaScript `Date` objects at local midnight, as the
    calendar components use them: `new Date(y, m, d)` with out-of-range months
    and days rolling over into neighbouring months and years, the getters
    `getFullYear`, `getMonth`, `getDate` and `getDay`, and comparisons of two
    dates. Time of day, time zones and the time value's range limit are not
    modelled: every date here is a whole day of the proleptic Gregorian
    calendar. */
module JsDate {

  predicate IsLeap(y: int) {
    (y % 4 == 0 && y % 100 != 0) || y % 400 == 0
  }

  function DaysInYear(y: int): (n: int)
    ensures n == 365 || n == 366
    ensures n == 366 <==> IsLeap(y)
  {
    if IsLeap(y) then 366 else 365
  }

  /** Days in month `m0` (0 = January) of year `y`. */
  function DaysInMonth(y: int, m0: int): (n: int)
    requires 0 <= m0 < 12
    ensures 28 <= n <= 31
    ensures m0 == 1 ==> (n == 29 <==> IsLeap(y))
  {
    if m0 == 1 then (if IsLeap(y) then 29 else 28)
    else if m0 == 3 || m0 == 5 || m0 == 8 || m0 == 10 then 30
    else 31
  }

  /** Days of year `y` before the first of month `m0`. */
  function DaysBeforeMonth(y: int, m0: int): (n: int)
    requires 0 <= m0 <= 12
    ensures m0 == 0 ==> n == 0
    ensures m0 == 12 ==> n == DaysInYear(y)
  {
    var leap := if IsLeap(y) then 1 else 0;
    if m0 == 0 then 0
    else if m0 == 1 then 31
    else [59, 90, 120, 151, 181, 212, 243, 273, 304, 334, 365][m0 - 2] + leap
  }

  /** Each month starts `DaysInMonth` days after the previous one. */
  lemma MonthStep(y: int, m0: int)
    requires 0 < m0 <= 12
    ensures DaysBeforeMonth(y, m0) == DaysBeforeMonth(y, m0 - 1) + DaysInMonth(y, m0 - 1)
  {
  }

  lemma {:induction false} DaysBeforeMonthMono(y: int, a: int, b: int)
    requires 0 <= a <= b <= 12
    ensures DaysBeforeMonth(y, a) + (b - a) * 28 <= DaysBeforeMonth(y, b)
    decreases b - a
  {
    if a < b {
      MonthStep(y, a + 1);
      DaysBeforeMonthMono(y, a + 1, b);
    }
  }

  /** Day number (days since 1 January 1970) of 1 January of year `y`. */
  function DayFromYear(y: int): int {
    365 * (y - 1970) + (y - 1969) / 4 - (y - 1901) / 100 + (y - 1601) / 400
  }

  lemma LeapTerm4(y: int)
    ensures (y - 1968) / 4 - (y - 1969) / 4 == if y % 4 == 0 then 1 else 0
  {
  }

  lemma LeapTerm100(y: int)
    ensures (y - 1900) / 100 - (y - 1901) / 100 == if y % 100 == 0 then 1 else 0
  {
  }

  lemma LeapTerm400(y: int)
    ensures (y - 1600) / 400 - (y - 1601) / 400 == if y % 400 == 0 then 1 else 0
  {
  }

  lemma DivisorsNest(y: int)
    ensures y % 400 == 0 ==> y % 100 == 0
    ensures y % 100 == 0 ==> y % 4 == 0
  {
  }

  /** Each year starts `DaysInYear` days after the previous one. */
  lemma YearStep(y: int)
    ensures DayFromYear(y + 1) == DayFromYear(y) + DaysInYear(y)
  {
    LeapTerm4(y);
    LeapTerm100(y);
    LeapTerm400(y);
    DivisorsNest(y);
    var a := (y - 1968) / 4 - (y - 1969) / 4;
    var b := (y - 1900) / 100 - (y - 1901) / 100;
    var c := (y - 1600) / 400 - (y - 1601) / 400;
    assert DayFromYear(y + 1) == DayFromYear(y) + 365 + a - b + c;
  }

  /** The first of January of a later year has a later day number. */
  lemma {:induction false} YearsOrdered(a: int, b: int)
    requires a <= b
    ensures DayFromYear(a) + 365 * (b - a) <= DayFromYear(b)
    decreases b - a
  {
    if a < b {
      YearStep(a);
      YearsOrdered(a + 1, b);
    }
  }

  /** A calendar date; `month0` counts from 0 as `getMonth` does. */
  datatype Date = Date(year: int, month0: int, day: int)

  predicate Valid(d: Date) {
    0 <= d.month0 < 12 && 1 <= d.day <= DaysInMonth(d.year, d.month0)
  }

  /** The day number of a date whose month is in range; the day may lie
      outside the month, as it may in the `Date` constructor. */
  function Serial(y: int, m0: int, d: int): int
    requires 0 <= m0 < 12
  {
    DayFromYear(y) + DaysBeforeMonth(y, m0) + d - 1
  }

  function DayNumber(d: Date): int
    requires 0 <= d.month0 < 12
  {
    Serial(d.year, d.month0, d.day)
  }

  /** A valid date's day number lies within its year. */
  lemma WithinYear(d: Date)
    requires Valid(d)
    ensures DayFromYear(d.year) <= DayNumber(d) < DayFromYear(d.year + 1)
  {
    YearStep(d.year);
    DaysBeforeMonthMono(d.year, d.month0 + 1, 12);
  }

  /** Calendar order: year, then month, then day. */
  predicate Before(a: Date, b: Date) {
    a.year < b.year
    || (a.year == b.year && a.month0 < b.month0)
    || (a.year == b.year && a.month0 == b.month0 && a.day < b.day)
  }

  /** A date of an earlier year has a smaller day number. */
  lemma EarlierYear(a: Date, b: Date)
    requires Valid(a) && Valid(b) && a.year < b.year
    ensures DayNumber(a) < DayNumber(b)
  {
    WithinYear(a);
    WithinYear(b);
    YearsOrdered(a.year + 1, b.year);
  }

  /** Within one year, a date of an earlier month has a smaller day number. */
  lemma EarlierMonth(a: Date, b: Date)
    requires Valid(a) && Valid(b) && a.year == b.year && a.month0 < b.month0
    ensures DayNumber(a) < DayNumber(b)
  {
    DaysBeforeMonthMono(a.year, a.month0 + 1, b.month0);
  }

  /** Comparing two dates with `<` compares them in calendar order. */
  lemma DayNumberOrder(a: Date, b: Date)
    requires Valid(a) && Valid(b)
    ensures DayNumber(a) < DayNumber(b) <==> Before(a, b)
  {
    if a.year < b.year {
      EarlierYear(a, b);
    } else if b.year < a.year {
      EarlierYear(b, a);
    } else if a.month0 < b.month0 {
      EarlierMonth(a, b);
    } else if b.month0 < a.month0 {
      EarlierMonth(b, a);
    }
  }

  /** Two valid dates with the same day number are the same date. */
  lemma DayNumberInjective(a: Date, b: Date)
    requires Valid(a) && Valid(b) && DayNumber(a) == DayNumber(b)
    ensures a == b
  {
    DayNumberOrder(a, b);
    DayNumberOrder(b, a);
  }

  /** MakeFullYear: a year argument from 0 to 99 means 1900 to 1999. */
  function FullYear(y: int): (r: int)
    ensures 0 <= y <= 99 ==> r == 1900 + y
    ensures (y < 0 || 99 < y) ==> r == y
  {
    if 0 <= y <= 99 then 1900 + y else y
  }

  /** Month rollover of the `Date` constructor: `(y, m)` as a year and a
      month in 0..11 that denote the same month. */
  function NormalizeMonth(y: int, m: int): (r: (int, int))
    ensures 0 <= r.1 < 12
    ensures r.0 * 12 + r.1 == y * 12 + m
  {
    (y + m / 12, m % 12)
  }

  /** A month already in range is left alone. */
  lemma NormalizeInRange(y: int, m: int)
    requires 0 <= m < 12
    ensures NormalizeMonth(y, m) == (y, m)
  {
  }

  lemma NormalizeNext(y: int, m: int)
    ensures NormalizeMonth(y, m).1 < 11 ==>
      NormalizeMonth(y, m + 1) == (NormalizeMonth(y, m).0, NormalizeMonth(y, m).1 + 1)
    ensures NormalizeMonth(y, m).1 == 11 ==>
      NormalizeMonth(y, m + 1) == (NormalizeMonth(y, m).0 + 1, 0)
  {
  }

  /** The time value (in days) `new Date(y, m, d)` computes, before it is
      split back into year, month and day. */
  function MakeDay(y: int, m: int, d: int): int {
    var n := NormalizeMonth(FullYear(y), m);
    Serial(n.0, n.1, d)
  }

  /** The month before `m0` of year `y`, as a (year, month) pair. */
  function MonthBefore(y: int, m0: int): (r: (int, int))
    requires 0 <= m0 < 12
    ensures 0 <= r.1 < 12
  {
    if m0 == 0 then (y - 1, 11) else (y, m0 - 1)
  }

  /** The month after `m0` of year `y`. */
  function MonthAfter(y: int, m0: int): (r: (int, int))
    requires 0 <= m0 < 12
    ensures 0 <= r.1 < 12
  {
    if m0 == 11 then (y + 1, 0) else (y, m0 + 1)
  }

  /** Day `d` of a month is day `d` plus the previous month's length of the
      previous month. */
  lemma SerialPrev(y: int, m0: int, d: int)
    requires 0 <= m0 < 12
    ensures Serial(MonthBefore(y, m0).0, MonthBefore(y, m0).1, d + DaysInMonth(MonthBefore(y, m0).0, MonthBefore(y, m0).1))
      == Serial(y, m0, d)
  {
    if m0 == 0 { YearStep(y - 1); }
  }

  /** Day `d` of a month is day `d` minus its length of the next month. */
  lemma SerialNext(y: int, m0: int, d: int)
    requires 0 <= m0 < 12
    ensures Serial(MonthAfter(y, m0).0, MonthAfter(y, m0).1, d - DaysInMonth(y, m0)) == Serial(y, m0, d)
  {
    if m0 == 11 { YearStep(y); }
  }

  /** Rolls a day outside its month into the neighbouring months. */
  function Roll(y: int, m0: int, d: int): (r: Date)
    requires 0 <= m0 < 12
    ensures Valid(r)
    ensures DayNumber(r) == Serial(y, m0, d)
    decreases if d < 1 then 1 - d else 0, d
  {
    if d < 1 then
      var p := MonthBefore(y, m0);
      SerialPrev(y, m0, d);
      Roll(p.0, p.1, d + DaysInMonth(p.0, p.1))
    else if d > DaysInMonth(y, m0) then
      var n := MonthAfter(y, m0);
      SerialNext(y, m0, d);
      Roll(n.0, n.1, d - DaysInMonth(y, m0))
    else Date(y, m0, d)
  }

  /** `new Date(y, m, d)` read back through `getFullYear`, `getMonth` and
      `getDate`: a valid date with the day number the constructor computes. */
  function NewDate(y: int, m: int, d: int): (r: Date)
    ensures Valid(r)
    ensures DayNumber(r) == MakeDay(y, m, d)
  {
    var n := NormalizeMonth(FullYear(y), m);
    Roll(n.0, n.1, d)
  }

  /** A valid date passed back through the constructor is unchanged (for
      years outside 0..99, which the constructor would move to 1900). */
  lemma NewDateOfValid(d: Date)
    ensures Valid(d) && (d.year < 0 || 99 < d.year) ==> NewDate(d.year, d.month0, d.day) == d
  {
    if Valid(d) && (d.year < 0 || 99 < d.year) {
      NormalizeInRange(d.year, d.month0);
      var r := NewDate(d.year, d.month0, d.day);
      DayNumberInjective(r, d);
    }
  }

  /** Day 0 of the next month is the last day of this month, which is how the
      components read a month's length. */
  lemma LastDayOfMonth(y: int, m: int)
    ensures NewDate(y, m + 1, 0) ==
      Date(NormalizeMonth(FullYear(y), m).0, NormalizeMonth(FullYear(y), m).1,
           DaysInMonth(NormalizeMonth(FullYear(y), m).0, NormalizeMonth(FullYear(y), m).1))
  {
    var n := NormalizeMonth(FullYear(y), m);
    var last := Date(n.0, n.1, DaysInMonth(n.0, n.1));
    NormalizeNext(FullYear(y), m);
    if n.1 == 11 { YearStep(n.0); }
    DayNumberInjective(NewDate(y, m + 1, 0), last);
  }

  /** Days within one month follow each other. */
  lemma SameMonthDays(y: int, m: int, a: int, b: int)
    ensures MakeDay(y, m, b) == MakeDay(y, m, a) + (b - a)
  {
  }

  /** `getDay()`: 0 is Sunday; 1 January 1970 was a Thursday. */
  function WeekDay(d: Date): (w: int)
    requires 0 <= d.month0 < 12
    ensures 0 <= w < 7
  {
    (DayNumber(d) + 4) % 7
  }
}
