/** Dates as day numbers. A `Date` is a proleptic Gregorian ordinal, the value
    Python's `date.toordinal()` gives (0001-01-01 is day 1, 9999-12-31 is the
    last day a `date` can hold). Comparing and subtracting dates is comparing
    and subtracting ordinals; `(a - b).days` is `a - b`. Rendering a date with
    `strftime('%Y-%m-%d')` needs its calendar form, computed here. */
module Calendar {
  import opened Outcomes
  import opened Text

  /** The ordinal of 9999-12-31. */
  const MaxOrdinal := 3652059

  type Date = d: int | 1 <= d <= MaxOrdinal witness 1

  datatype Civil = Civil(year: int, month: int, day: int)

  predicate IsLeap(y: int)
  {
    y % 4 == 0 && (y % 100 != 0 || y % 400 == 0)
  }

  function DaysInYear(y: int): int
  {
    if IsLeap(y) then 366 else 365
  }

  function DaysInMonth(y: int, m: int): int
    requires 1 <= m <= 12
  {
    if m == 2 then (if IsLeap(y) then 29 else 28)
    else if m == 4 || m == 6 || m == 9 || m == 11 then 30
    else 31
  }

  /** Days of year `y` before the first of month `m`. */
  function DaysBeforeMonth(y: int, m: int): int
    requires 1 <= m <= 12
  {
    var table := [0, 31, 59, 90, 120, 151, 181, 212, 243, 273, 304, 334];
    table[m - 1] + (if m > 2 && IsLeap(y) then 1 else 0)
  }

  /** Days before January 1st of year `y`, in closed form. */
  function DaysBeforeYear(y: int): int
    requires y >= 1
  {
    var k := y - 1;
    k * 365 + k / 4 - k / 100 + k / 400
  }

  predicate ValidCivil(c: Civil)
  {
    1 <= c.year <= 9999 && 1 <= c.month <= 12 && 1 <= c.day <= DaysInMonth(c.year, c.month)
  }

  /** Python's `date(y, m, d).toordinal()`. */
  function ToOrdinal(c: Civil): int
    requires ValidCivil(c)
  {
    DaysBeforeYear(c.year) + DaysBeforeMonth(c.year, c.month) + c.day
  }

  lemma MonthStep(y: int, m: int)
    requires 1 <= m < 12
    ensures DaysBeforeMonth(y, m + 1) == DaysBeforeMonth(y, m) + DaysInMonth(y, m)
  {
  }

  lemma LastMonth(y: int)
    ensures DaysBeforeMonth(y, 12) + DaysInMonth(y, 12) == DaysInYear(y)
  {
  }

  /** A year contributes exactly its own length to the closed form. */
  lemma DaysBeforeYearStep(y: int)
    requires y >= 1
    ensures DaysBeforeYear(y + 1) == DaysBeforeYear(y) + DaysInYear(y)
  {
    var k := y - 1;
    assert (k + 1) / 4 == k / 4 + (if y % 4 == 0 then 1 else 0);
    assert (k + 1) / 100 == k / 100 + (if y % 100 == 0 then 1 else 0);
    assert (k + 1) / 400 == k / 400 + (if y % 400 == 0 then 1 else 0);
  }

  lemma {:induction false} DaysBeforeYearMonotone(a: int, b: int)
    requires 1 <= a <= b
    ensures DaysBeforeYear(a) + (b - a) * 365 <= DaysBeforeYear(b)
    decreases b - a
  {
    if a < b {
      DaysBeforeYearMonotone(a, b - 1);
      DaysBeforeYearStep(b - 1);
    }
  }

  /** The calendar date of the `r`-th day (1-based) counted from the first of
      month `m` of year `y`, when that day lies in year `y`. */
  function MonthWalk(y: int, m: int, r: int): (c: Civil)
    requires y >= 1 && 1 <= m <= 12 && 1 <= r <= DaysInYear(y) - DaysBeforeMonth(y, m)
    ensures c.year == y && m <= c.month <= 12 && 1 <= c.day <= DaysInMonth(y, c.month)
    ensures DaysBeforeMonth(y, c.month) + c.day == DaysBeforeMonth(y, m) + r
    decreases 12 - m
  {
    if r <= DaysInMonth(y, m) then Civil(y, m, r)
    else
      LastMonth(y);
      MonthStep(y, m);
      MonthWalk(y, m + 1, r - DaysInMonth(y, m))
  }

  /** The calendar date of the `r`-th day (1-based) counted from January 1st of year `y`. */
  function YearWalk(y: int, r: int): (c: Civil)
    requires y >= 1 && r >= 1
    ensures c.year >= y && 1 <= c.month <= 12 && 1 <= c.day <= DaysInMonth(c.year, c.month)
    decreases r
  {
    if r <= DaysInYear(y) then MonthWalk(y, 1, r)
    else YearWalk(y + 1, r - DaysInYear(y))
  }

  /** The walk lands on the day it counted to. */
  lemma {:induction false} YearWalkOrdinal(y: int, r: int)
    requires y >= 1 && r >= 1
    ensures var c := YearWalk(y, r);
      DaysBeforeYear(c.year) + DaysBeforeMonth(c.year, c.month) + c.day == DaysBeforeYear(y) + r
    decreases r
  {
    var c := YearWalk(y, r);
    if r > DaysInYear(y) {
      var rest := r - DaysInYear(y);
      assert c == YearWalk(y + 1, rest);
      YearWalkOrdinal(y + 1, rest);
      DaysBeforeYearStep(y);
    } else {
      assert c == MonthWalk(y, 1, r);
      assert DaysBeforeMonth(y, 1) == 0;
    }
  }

  lemma YearBound(c: Civil, n: int)
    requires c.year >= 1 && 1 <= c.month <= 12 && 1 <= c.day && n <= MaxOrdinal
    requires DaysBeforeYear(c.year) + DaysBeforeMonth(c.year, c.month) + c.day == n
    ensures c.year <= 9999
  {
    if c.year >= 10000 {
      DaysBeforeYearMonotone(10000, c.year);
    }
  }

  /** Python's `date.fromordinal(n)`: the calendar form of a day number. */
  function FromOrdinal(n: Date): (c: Civil)
    ensures ValidCivil(c)
  {
    var c := YearWalk(1, n);
    YearWalkOrdinal(1, n);
    YearBound(c, n);
    c
  }

  /** `date.fromordinal(n).toordinal() == n`. */
  lemma FromOrdinalInverse(n: Date)
    ensures ToOrdinal(FromOrdinal(n)) == n
  {
    YearWalkOrdinal(1, n);
  }

  /** Every valid calendar date has an ordinal in the range of `Date`. */
  lemma OrdinalInRange(c: Civil)
    requires ValidCivil(c)
    ensures 1 <= ToOrdinal(c) <= MaxOrdinal
  {
    if c.month < 12 {
      MonthStep(c.year, c.month);
      MonthMonotone(c.year, c.month + 1, 12);
    }
    LastMonth(c.year);
    DaysBeforeYearStep(c.year);
    DaysBeforeYearMonotone(c.year + 1, 10000);
  }

  lemma MonthMonotone(y: int, a: int, b: int)
    requires 1 <= a <= b <= 12
    ensures DaysBeforeMonth(y, a) <= DaysBeforeMonth(y, b)
  {
  }

  /** An earlier calendar date has a smaller ordinal. */
  lemma ToOrdinalOrdered(lo: Civil, hi: Civil)
    requires ValidCivil(lo) && ValidCivil(hi)
    requires lo.year < hi.year || (lo.year == hi.year && lo.month < hi.month)
    ensures ToOrdinal(lo) < ToOrdinal(hi)
  {
    if lo.year < hi.year {
      EndOfYear(lo);
      DaysBeforeYearStep(lo.year);
      DaysBeforeYearMonotone(lo.year + 1, hi.year);
    } else {
      MonthStep(lo.year, lo.month);
      MonthMonotone(lo.year, lo.month + 1, hi.month);
    }
  }

  /** Distinct valid calendar dates have distinct ordinals. */
  lemma ToOrdinalInjective(c1: Civil, c2: Civil)
    requires ValidCivil(c1) && ValidCivil(c2) && ToOrdinal(c1) == ToOrdinal(c2)
    ensures c1 == c2
  {
    if c1.year < c2.year || (c1.year == c2.year && c1.month < c2.month) {
      ToOrdinalOrdered(c1, c2);
    } else if c2.year < c1.year || (c1.year == c2.year && c2.month < c1.month) {
      ToOrdinalOrdered(c2, c1);
    }
  }

  lemma EndOfYear(c: Civil)
    requires ValidCivil(c)
    ensures DaysBeforeMonth(c.year, c.month) + c.day <= DaysInYear(c.year)
  {
    if c.month < 12 {
      MonthStep(c.year, c.month);
      MonthMonotone(c.year, c.month + 1, 12);
    }
    LastMonth(c.year);
  }

  /** The two conversions are mutually inverse. */
  lemma CivilRoundTrip(c: Civil)
    requires ValidCivil(c)
    ensures 1 <= ToOrdinal(c) <= MaxOrdinal && FromOrdinal(ToOrdinal(c)) == c
  {
    OrdinalInRange(c);
    FromOrdinalInverse(ToOrdinal(c));
    ToOrdinalInjective(FromOrdinal(ToOrdinal(c)), c);
  }

  // ---------------------------------------------------------------------------
  // strftime('%Y-%m-%d')
  // ---------------------------------------------------------------------------

  /** `d.strftime('%Y-%m-%d')`: four-digit year, two-digit month and day. */
  function FormatDate(d: Date): (r: string)
  {
    var c := FromOrdinal(d);
    Padded(c.year, 4) + "-" + Padded(c.month, 2) + "-" + Padded(c.day, 2)
  }

  /** Reads a `YYYY-MM-DD` string back into a date; `None` if it is not one. */
  function ParseDate(r: string): Option<Date>
  {
    if |r| == 10 && r[4] == '-' && r[7] == '-' && IsDigits(r[..4]) && IsDigits(r[5..7]) && IsDigits(r[8..])
    then
      var c := Civil(ParseNat(r[..4]), ParseNat(r[5..7]), ParseNat(r[8..]));
      if ValidCivil(c) then OrdinalInRange(c); Some(ToOrdinal(c)) else None
    else None
  }

  /** A rendered date is ten characters `YYYY-MM-DD` and reads back as the same date,
      so the rendering loses nothing and distinct dates render differently. */
  lemma FormatDateRoundTrip(d: Date)
    ensures |FormatDate(d)| == 10 && FormatDate(d)[4] == '-' && FormatDate(d)[7] == '-'
    ensures ParseDate(FormatDate(d)) == Some(d)
  {
    var c := FromOrdinal(d);
    FromOrdinalInverse(d);
    var ys, ms, ds := Padded(c.year, 4), Padded(c.month, 2), Padded(c.day, 2);
    PaddedFields(c);
    DateStringParts(ys, ms, ds);
    PaddedRoundTrip(c.year, 4);
    PaddedRoundTrip(c.month, 2);
    PaddedRoundTrip(c.day, 2);
  }

  /** The fields of a valid date pad to four, two and two digits. */
  lemma PaddedFields(c: Civil)
    requires ValidCivil(c)
    ensures |Padded(c.year, 4)| == 4 && |Padded(c.month, 2)| == 2 && |Padded(c.day, 2)| == 2
  {
    assert Pow10(2) == 100 && Pow10(4) == 10000 by {
      assert Pow10(1) == 10;
      assert Pow10(3) == 1000;
    }
    PaddedWidth(c.year, 4);
    PaddedWidth(c.month, 2);
    PaddedWidth(c.day, 2);
  }

  /** Where the three fields sit in `YYYY-MM-DD`. */
  lemma DateStringParts(ys: string, ms: string, ds: string)
    requires |ys| == 4 && |ms| == 2 && |ds| == 2
    ensures var r := ys + "-" + ms + "-" + ds;
      |r| == 10 && r[4] == '-' && r[7] == '-' && r[..4] == ys && r[5..7] == ms && r[8..] == ds
  {
  }

  lemma FormatDateInjective(a: Date, b: Date)
    ensures FormatDate(a) == FormatDate(b) ==> a == b
  {
    FormatDateRoundTrip(a);
    FormatDateRoundTrip(b);
  }
}
