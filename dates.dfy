/**
 * Calendar dates as Python's `datetime.date` has them: the proleptic Gregorian
 * calendar, years 1 to 9999, `toordinal`, `weekday` (Monday is 0),
 * `isoformat`, and the English month names of `calendar.month_name`.
 */
module Dates {
  import opened Wrappers
  import opened Text

  const MinYear := 1
  const MaxYear := 9999

  datatype Date = Date(year: int, month: int, day: int) {
    /** What `datetime.date(year, month, day)` accepts. */
    predicate Valid() {
      MinYear <= year <= MaxYear && 1 <= month <= 12 && 1 <= day <= DaysInMonth(year, month)
    }
  }

  predicate IsLeap(year: int) {
    year % 4 == 0 && (year % 100 != 0 || year % 400 == 0)
  }

  function DaysInMonth(year: int, month: int): (n: int)
    requires 1 <= month <= 12
    ensures 28 <= n <= 31
    ensures n == 28 <==> month == 2 && !IsLeap(year)
  {
    if month == 2 then (if IsLeap(year) then 29 else 28)
    else if month in {4, 6, 9, 11} then 30
    else 31
  }

  function DaysInYear(year: int): int {
    if IsLeap(year) then 366 else 365
  }

  /** Days in the years 1 .. year-1. */
  function DaysBeforeYear(year: int): int
    requires year >= 1
  {
    var y := year - 1;
    365 * y + y / 4 - y / 100 + y / 400
  }

  /** Days in the months 1 .. month-1 of `year`. */
  function DaysBeforeMonth(year: int, month: int): int
    requires 1 <= month <= 12
  {
    [0, 31, 59, 90, 120, 151, 181, 212, 243, 273, 304, 334][month - 1]
      + (if month > 2 && IsLeap(year) then 1 else 0)
  }

  /** `date.max.toordinal()`: the day number of 31 December 9999. */
  const MaxOrdinal := 3652059

  /** `date.toordinal()`: 1 January of year 1 is day 1. */
  function Ordinal(d: Date): (o: int)
    requires d.year >= 1 && 1 <= d.month <= 12
    ensures d.Valid() ==> 1 <= o <= MaxOrdinal
  {
    var o := DaysBeforeYear(d.year) + DaysBeforeMonth(d.year, d.month) + d.day;
    if d.Valid() then
      DaysThroughMonthBound(d.year, d.month);
      o
    else
      o
  }

  /** No month of the years `date` allows ends after `date.max`. */
  lemma DaysThroughMonthBound(year: int, month: int)
    requires MinYear <= year <= MaxYear && 1 <= month <= 12
    ensures 0 <= DaysBeforeYear(year) + DaysBeforeMonth(year, month)
    ensures DaysBeforeYear(year) + DaysBeforeMonth(year, month) + DaysInMonth(year, month) <= MaxOrdinal
  {
    DaysBeforeMonthStep(year, 12);
    if month < 12 {
      DaysBeforeMonthGrows(year, month, 12);
    }
    DaysBeforeYearGrows(year, MaxYear + 1);
    assert DaysBeforeYear(MaxYear + 1) == MaxOrdinal;
  }

  /** `date.weekday()`: Monday is 0 and Sunday is 6. */
  function Weekday(d: Date): (w: int)
    requires d.year >= 1 && 1 <= d.month <= 12
    ensures 0 <= w < 7
  {
    (Ordinal(d) + 6) % 7
  }

  /** Python's order on dates: by year, then month, then day. It is total: when `a <= b` fails, `b` is strictly earlier. */
  predicate DateLe(a: Date, b: Date)
    ensures !DateLe(a, b) ==> b.year < a.year || (b.year == a.year && (b.month < a.month || (b.month == a.month && b.day < a.day)))
  {
    a.year < b.year || (a.year == b.year && (a.month < b.month || (a.month == b.month && a.day <= b.day)))
  }

  lemma DaysBeforeYearStep(year: int)
    requires year >= 1
    ensures DaysBeforeYear(year + 1) == DaysBeforeYear(year) + DaysInYear(year)
  {
    var y := year - 1;
    QuotientStep(y, 4);
    QuotientStep(y, 100);
    QuotientStep(y, 400);
    LeapCount(year);
    assert DaysBeforeYear(year + 1) == 365 * year + year / 4 - year / 100 + year / 400;
    assert DaysBeforeYear(year) == 365 * y + y / 4 - y / 100 + y / 400;
  }

  /** The Gregorian rule as a count: multiples of 4, less those of 100, plus those of 400. */
  lemma LeapCount(year: int)
    ensures (if year % 4 == 0 then 1 else 0) - (if year % 100 == 0 then 1 else 0) + (if year % 400 == 0 then 1 else 0)
      == if IsLeap(year) then 1 else 0
  {
    assert year == 4 * (year / 4) + year % 4;
    assert year == 100 * (year / 100) + year % 100;
    assert year == 400 * (year / 400) + year % 400;
  }

  /** One year further on, the count of multiples of 4, 100 or 400 grows by one exactly at such a multiple. */
  lemma QuotientStep(y: int, k: int)
    requires y >= 0 && k in {4, 100, 400}
    ensures (y + 1) / k - y / k == if (y + 1) % k == 0 then 1 else 0
  {
    if k == 4 {
      assert y == 4 * (y / 4) + y % 4;
    } else if k == 100 {
      assert y == 100 * (y / 100) + y % 100;
    } else {
      assert y == 400 * (y / 400) + y % 400;
    }
  }

  lemma {:induction false} DaysBeforeYearGrows(y1: int, y2: int)
    requires 1 <= y1 < y2
    ensures DaysBeforeYear(y1) + DaysInYear(y1) <= DaysBeforeYear(y2)
    decreases y2 - y1
  {
    DaysBeforeYearStep(y1);
    if y1 + 1 < y2 {
      DaysBeforeYearGrows(y1 + 1, y2);
    }
  }

  lemma DaysBeforeMonthStep(year: int, month: int)
    requires 1 <= month <= 12
    ensures month < 12 ==> DaysBeforeMonth(year, month + 1) == DaysBeforeMonth(year, month) + DaysInMonth(year, month)
    ensures month == 12 ==> DaysBeforeMonth(year, month) + DaysInMonth(year, month) == DaysInYear(year)
  {
  }

  lemma {:induction false} DaysBeforeMonthGrows(year: int, m1: int, m2: int)
    requires 1 <= m1 < m2 <= 12
    ensures DaysBeforeMonth(year, m1) + DaysInMonth(year, m1) <= DaysBeforeMonth(year, m2)
    decreases m2 - m1
  {
    DaysBeforeMonthStep(year, m1);
    if m1 + 1 < m2 {
      DaysBeforeMonthGrows(year, m1 + 1, m2);
    }
  }

  /** Python's date order is chronological: it agrees with the day count from 1 January 1. */
  lemma DateOrderIsChronological(a: Date, b: Date)
    requires a.Valid() && b.Valid()
    ensures DateLe(a, b) <==> Ordinal(a) <= Ordinal(b)
  {
    if a != b {
      if DateLe(a, b) {
        OrdinalIncreases(a, b);
      } else {
        OrdinalIncreases(b, a);
      }
    }
  }

  lemma OrdinalIncreases(a: Date, b: Date)
    requires a.Valid() && b.Valid() && DateLe(a, b) && a != b
    ensures Ordinal(a) < Ordinal(b)
  {
    DaysBeforeMonthStep(a.year, 12);
    if a.year < b.year {
      DaysBeforeYearGrows(a.year, b.year);
      if a.month < 12 {
        DaysBeforeMonthGrows(a.year, a.month, 12);
      }
    } else if a.month < b.month {
      DaysBeforeMonthGrows(a.year, a.month, b.month);
    }
  }

  lemma ModAddLeft(x: int, n: int)
    ensures (x + n) % 7 == (x % 7 + n) % 7
  {
    var q := x / 7;
    assert x == 7 * q + x % 7;
    assert x + n == 7 * q + (x % 7 + n);
  }

  /** Consecutive days of a month fall on consecutive weekdays. */
  lemma WeekdayOfDay(year: int, month: int, day: int)
    requires MinYear <= year && 1 <= month <= 12
    ensures Weekday(Date(year, month, day)) == (Weekday(Date(year, month, 1)) + day - 1) % 7
  {
    var o := Ordinal(Date(year, month, 1));
    assert Ordinal(Date(year, month, day)) == o + day - 1;
    ModAddLeft(o + 6, day - 1);
  }

  const MonthNames: seq<string> := [
    "January", "February", "March", "April", "May", "June",
    "July", "August", "September", "October", "November", "December"
  ]

  /** `calendar.month_name[month]`, which is also what `%B` prints, in the English locale. */
  function MonthName(month: int): (name: string)
    requires 1 <= month <= 12
    ensures 3 <= |name| <= 9
    ensures MonthNumber(name) == Some(month)
  {
    MonthNamesRoundTrip();
    MonthNames[month - 1]
  }

  /** Each of the twelve names reads back as its own month. */
  lemma MonthNamesRoundTrip()
    ensures forall m :: 1 <= m <= 12 ==> MonthNumber(MonthNames[m - 1]) == Some(m)
  {
    assert MonthNumber(MonthNames[0]) == Some(1);
    assert MonthNumber(MonthNames[1]) == Some(2);
    assert MonthNumber(MonthNames[2]) == Some(3);
    assert MonthNumber(MonthNames[3]) == Some(4);
    assert MonthNumber(MonthNames[4]) == Some(5);
    assert MonthNumber(MonthNames[5]) == Some(6);
    assert MonthNumber(MonthNames[6]) == Some(7);
    assert MonthNumber(MonthNames[7]) == Some(8);
    assert MonthNumber(MonthNames[8]) == Some(9);
    assert MonthNumber(MonthNames[9]) == Some(10);
    assert MonthNumber(MonthNames[10]) == Some(11);
    assert MonthNumber(MonthNames[11]) == Some(12);
  }

  /** The month a name stands for, if it is one of the twelve names. */
  function MonthNumber(name: string): Option<int> {
    if name == "January" then Some(1)
    else if name == "February" then Some(2)
    else if name == "March" then Some(3)
    else if name == "April" then Some(4)
    else if name == "May" then Some(5)
    else if name == "June" then Some(6)
    else if name == "July" then Some(7)
    else if name == "August" then Some(8)
    else if name == "September" then Some(9)
    else if name == "October" then Some(10)
    else if name == "November" then Some(11)
    else if name == "December" then Some(12)
    else None
  }

  lemma MonthNameInjective(m1: int, m2: int)
    requires 1 <= m1 <= 12 && 1 <= m2 <= 12
    ensures MonthName(m1) == MonthName(m2) <==> m1 == m2
  {
  }

  /** `date.isoformat()`: `YYYY-MM-DD`. */
  function IsoFormat(d: Date): (s: string)
    requires d.Valid()
    ensures |s| == 10
    ensures ParseIso(s) == Some(d)
  {
    var s := ZeroPadded(d.year, 4) + "-" + ZeroPadded(d.month, 2) + "-" + ZeroPadded(d.day, 2);
    assert s[..4] == ZeroPadded(d.year, 4);
    assert s[5..7] == ZeroPadded(d.month, 2);
    assert s[8..] == ZeroPadded(d.day, 2);
    s
  }

  /**
   * Reads back a `YYYY-MM-DD` string naming a real date (as `date.fromisoformat`
   * does for this form): only the zero-padded form of a valid date is accepted.
   */
  function ParseIso(s: string): (r: Option<Date>)
    ensures r.Some? ==> r.value.Valid()
    ensures r.Some? ==>
      s == ZeroPadded(r.value.year, 4) + "-" + ZeroPadded(r.value.month, 2) + "-" + ZeroPadded(r.value.day, 2)
  {
    if |s| == 10 && s[4] == '-' && s[7] == '-'
       && AllDigits(s[..4]) && AllDigits(s[5..7]) && AllDigits(s[8..])
    then
      var d := Date(ValueOf(s[..4]), ValueOf(s[5..7]), ValueOf(s[8..]));
      if d.Valid() then
        IsoPieces(s);
        Some(d)
      else None
    else None
  }

  /** A string of the `YYYY-MM-DD` shape is the padded rendering of the numbers it holds. */
  lemma IsoPieces(s: string)
    requires |s| == 10 && s[4] == '-' && s[7] == '-'
    requires AllDigits(s[..4]) && AllDigits(s[5..7]) && AllDigits(s[8..])
    ensures s == ZeroPadded(ValueOf(s[..4]), 4) + "-" + ZeroPadded(ValueOf(s[5..7]), 2) + "-" + ZeroPadded(ValueOf(s[8..]), 2)
  {
    PaddedValueOf(s[..4]);
    PaddedValueOf(s[5..7]);
    PaddedValueOf(s[8..]);
    assert s == s[..4] + "-" + s[5..7] + "-" + s[8..];
  }

  lemma IsoFormatInjective(a: Date, b: Date)
    requires a.Valid() && b.Valid()
    ensures IsoFormat(a) == IsoFormat(b) <==> a == b
  {
  }

  /**
   * For the years `date` allows, comparing ISO strings as strings compares
   * the dates: lexical order is chronological order.
   */
  lemma IsoOrderIsDateOrder(a: Date, b: Date)
    requires a.Valid() && b.Valid()
    ensures LexLe(IsoFormat(a), IsoFormat(b)) <==> DateLe(a, b)
  {
    var ya, ma, da := ZeroPadded(a.year, 4), ZeroPadded(a.month, 2), ZeroPadded(a.day, 2);
    var yb, mb, db := ZeroPadded(b.year, 4), ZeroPadded(b.month, 2), ZeroPadded(b.day, 2);
    assert IsoFormat(a) == ya + ("-" + (ma + ("-" + da)));
    assert IsoFormat(b) == yb + ("-" + (mb + ("-" + db)));
    ZeroPaddedOrder(a.year, b.year, 4);
    ZeroPaddedOrder(a.month, b.month, 2);
    ZeroPaddedOrder(a.day, b.day, 2);
    LexLeConcat(ya, "-" + (ma + ("-" + da)), yb, "-" + (mb + ("-" + db)));
    LexLeConcat("-", ma + ("-" + da), "-", mb + ("-" + db));
    LexLeConcat(ma, "-" + da, mb, "-" + db);
    LexLeConcat("-", da, "-", db);
  }
}
