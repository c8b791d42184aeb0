/**
 Dates as the date picker sees them: a day number (the "pick", in days since 1 January 1970)
 with year, month, date and weekday views.  The arithmetic is that of ECMA-262 edition 5.1,
 sections 15.9.1.3 (year number), 15.9.1.4 (month number), 15.9.1.5 (date number),
 15.9.1.6 (week day) and 15.9.1.12 (MakeDay).  Months count from 0, dates from 1, Sunday is 0.
 */
module Calendar {

  /** A date object of the picker; `pick` is its midnight, counted in days. */
  datatype DateObject = DateObject(year: int, month: int, date: int, day: int, pick: int)

  predicate IsLeap(y: int) {
    y % 4 == 0 && (y % 100 != 0 || y % 400 == 0)
  }

  function DaysInYear(y: int): int {
    if IsLeap(y) then 366 else 365
  }

  function DayFromYear(y: int): int {
    365 * (y - 1970) + (y - 1969) / 4 - (y - 1901) / 100 + (y - 1601) / 400
  }

  function DaysInMonth(y: int, m: int): int
    requires 0 <= m < 12
  {
    if m == 1 then (if IsLeap(y) then 29 else 28)
    else if m == 3 || m == 5 || m == 8 || m == 10 then 30
    else 31
  }

  /** Days of the year `y` before its month `m`; month 12 is the end of the year. */
  function DaysBefore(y: int, m: int): (n: int)
    requires 0 <= m <= 12
    ensures m < 12 ==> DaysBefore(y, m + 1) == n + DaysInMonth(y, m)
    ensures 28 * m <= n <= DaysInYear(y) && (m == 12 ==> n == DaysInYear(y))
    decreases 12 - m
  {
    var leap := if IsLeap(y) then 1 else 0;
    var next := if m < 12 then DaysBefore(y, m + 1) else 0;
    match m
    case 0 => 0
    case 1 => 31
    case 2 => 59 + leap
    case 3 => 90 + leap
    case 4 => 120 + leap
    case 5 => 151 + leap
    case 6 => 181 + leap
    case 7 => 212 + leap
    case 8 => 243 + leap
    case 9 => 273 + leap
    case 10 => 304 + leap
    case 11 => 334 + leap
    case 12 => 365 + leap
  }

  function MakeDay(y: int, m: int, d: int): int {
    DayFromYear(y + m / 12) + DaysBefore(y + m / 12, m % 12) + d - 1
  }

  lemma DivStep(x: int, k: int)
    requires k == 4 || k == 100 || k == 400
    ensures (x + 1) / k == x / k + (if (x + 1) % k == 0 then 1 else 0)
  {
  }

  /** The offsets of the leap-day terms of `DayFromYear` are multiples of their periods. */
  lemma LeapOffset(y: int, k: int, c: int)
    requires (k == 4 && c == 492) || (k == 100 && c == 19) || (k == 400 && c == 4)
    ensures (y - k * c) % k == y % k
  {
    var q := y / k;
    if k == 4 {
      assert (y - 1968) / 4 == q - 492;
    } else if k == 100 {
      assert (y - 1900) / 100 == q - 19;
    } else {
      assert (y - 1600) / 400 == q - 4;
    }
  }

  lemma CenturiesAreFourths(y: int)
    ensures y % 100 == 0 ==> y % 4 == 0
  {
    var c := y / 100;
    assert y == 100 * c + y % 100;
    if y % 100 == 0 {
      assert y / 4 == 25 * c;
    }
  }

  lemma CyclesAreCenturies(y: int)
    ensures y % 400 == 0 ==> y % 100 == 0
  {
    var c := y / 400;
    assert y == 400 * c + y % 400;
    if y % 400 == 0 {
      assert y / 100 == 4 * c;
    }
  }

  lemma NextYear(y: int)
    ensures DayFromYear(y + 1) == DayFromYear(y) + DaysInYear(y)
  {
    DivStep(y - 1969, 4);
    DivStep(y - 1901, 100);
    DivStep(y - 1601, 400);
    LeapOffset(y, 4, 492);
    LeapOffset(y, 100, 19);
    LeapOffset(y, 400, 4);
    CenturiesAreFourths(y);
    CyclesAreCenturies(y);
  }

  lemma MakeDayProper(y: int, m: int, d: int)
    requires 0 <= m < 12
    ensures MakeDay(y, m, d) == DayFromYear(y) + DaysBefore(y, m) + d - 1
  {
    assert m / 12 == 0 && m % 12 == m;
  }

  lemma YearsGrow(y: int)
    ensures DayFromYear(y) < DayFromYear(y + 1)
  {
    hide DayFromYear;
    NextYear(y);
  }

  /** The year that day `n` falls in, looked for from year `y`. */
  function YearFrom(n: int, y: int): (r: int)
    ensures DayFromYear(r) <= n < DayFromYear(r + 1)
    decreases if n < DayFromYear(y) then DayFromYear(y) - n
              else if n >= DayFromYear(y + 1) then n - DayFromYear(y + 1) + 1 else 0
  {
    hide DayFromYear;
    YearsGrow(y - 1);
    YearsGrow(y);
    YearsGrow(y + 1);
    if n < DayFromYear(y) then YearFrom(n, y - 1)
    else if n >= DayFromYear(y + 1) then YearFrom(n, y + 1)
    else y
  }

  /** The month that the day `k` of the year `y` (counted from 0) falls in, looked for from month `m`. */
  function MonthFrom(y: int, k: int, m: int): (r: int)
    requires 0 <= m < 12 && DaysBefore(y, m) <= k < DaysInYear(y)
    ensures 0 <= r < 12 && DaysBefore(y, r) <= k < DaysBefore(y, r + 1)
    decreases 12 - m
  {
    hide DaysBefore, DaysInYear;
    if k < DaysBefore(y, m + 1) then m else MonthFrom(y, k, m + 1)
  }

  /** The date object of a day number. */
  function FromPick(n: int): (o: DateObject)
    ensures o.pick == n && 0 <= o.month < 12 && 1 <= o.date <= DaysInMonth(o.year, o.month)
    ensures MakeDay(o.year, o.month, o.date) == n
    ensures o.day == (n + 4) % 7
  {
    var y := YearFrom(n, 1970);
    DayWithinYear(y, n);
    var m := MonthFrom(y, n - DayFromYear(y), 0);
    var d := n - DayFromYear(y) - DaysBefore(y, m) + 1;
    DayWithinMonth(y, m, d);
    MakeDayProper(y, m, d);
    DateObject(y, m, d, (n + 4) % 7, n)
  }

  lemma PickOf(p: int)
    ensures FromPick(p).pick == p
  {
  }

  lemma DayWithinYear(y: int, n: int)
    requires DayFromYear(y) <= n < DayFromYear(y + 1)
    ensures DaysBefore(y, 0) <= n - DayFromYear(y) < DaysInYear(y)
  {
    hide DayFromYear, DaysInYear;
    NextYear(y);
  }

  lemma DayWithinMonth(y: int, m: int, d: int)
    requires 0 <= m < 12 && DaysBefore(y, m) <= DaysBefore(y, m) + d - 1 < DaysBefore(y, m + 1)
    ensures 1 <= d <= DaysInMonth(y, m)
  {
    hide DaysInMonth;
    assert DaysBefore(y, m + 1) == DaysBefore(y, m) + DaysInMonth(y, m);
  }

  /** `new Date(y, m, d)` reads a year from 0 to 99 as one of the twentieth century. */
  function FullYear(y: int): int {
    if 0 <= y <= 99 then 1900 + y else y
  }

  /** The date object of `new Date(y, m, d)`, whose month and date may lie outside their ranges. */
  function Create(y: int, m: int, d: int): DateObject {
    FromPick(MakeDay(FullYear(y), m, d))
  }

  lemma CreateIsDay(y: int, m: int, d: int)
    ensures Create(y, m, d) == FromPick(Create(y, m, d).pick)
  {
    hide FromPick;
    PickOf(MakeDay(FullYear(y), m, d));
  }

  lemma {:induction false} YearsAreOrdered(y: int, z: int)
    requires y <= z
    ensures DayFromYear(y) <= DayFromYear(z)
    decreases z - y
  {
    if y < z {
      NextYear(y);
      YearsAreOrdered(y + 1, z);
    }
  }

  lemma {:induction false} MonthsAreOrdered(y: int, m: int, n: int)
    requires 0 <= m <= n <= 12
    ensures DaysBefore(y, m) <= DaysBefore(y, n)
    decreases n - m
  {
    hide DaysBefore;
    if m < n {
      MonthsAreOrdered(y, m + 1, n);
      ShortMonths(y, m);
    }
  }

  lemma YearIsUnique(n: int, y: int, z: int)
    requires DayFromYear(y) <= n < DayFromYear(y + 1)
    requires DayFromYear(z) <= n < DayFromYear(z + 1)
    ensures y == z
  {
    if y < z {
      YearsAreOrdered(y + 1, z);
    } else if z < y {
      YearsAreOrdered(z + 1, y);
    }
  }

  lemma MonthIsUnique(y: int, k: int, m: int, n: int)
    requires 0 <= m < 12 && DaysBefore(y, m) <= k < DaysBefore(y, m + 1)
    requires 0 <= n < 12 && DaysBefore(y, n) <= k < DaysBefore(y, n + 1)
    ensures m == n
  {
    if m < n {
      MonthsAreOrdered(y, m + 1, n);
    } else if n < m {
      MonthsAreOrdered(y, n + 1, m);
    }
  }

  /** A proper date lies within its year. */
  lemma ProperDateInYear(y: int, m: int, d: int)
    requires 0 <= m < 12 && 1 <= d <= DaysInMonth(y, m)
    ensures DayFromYear(y) <= MakeDay(y, m, d) < DayFromYear(y + 1)
  {
    MakeDayProper(y, m, d);
    NextYear(y);
    assert DaysBefore(y, m + 1) == DaysBefore(y, m) + DaysInMonth(y, m);
  }

  /** A day has one year, month and date only: the views invert `MakeDay` on proper dates. */
  lemma ViewsInvertMakeDay(y: int, m: int, d: int)
    requires 0 <= m < 12 && 1 <= d <= DaysInMonth(y, m)
    ensures FromPick(MakeDay(y, m, d)).year == y
    ensures FromPick(MakeDay(y, m, d)).month == m
    ensures FromPick(MakeDay(y, m, d)).date == d
  {
    ViewsAreUnique(FromPick(MakeDay(y, m, d)), y, m, d);
  }

  lemma ViewsAreUnique(o: DateObject, y: int, m: int, d: int)
    requires 0 <= m < 12 && 1 <= d <= DaysInMonth(y, m)
    requires 0 <= o.month < 12 && 1 <= o.date <= DaysInMonth(o.year, o.month)
    requires MakeDay(o.year, o.month, o.date) == MakeDay(y, m, d)
    ensures o.year == y && o.month == m && o.date == d
  {
    hide DayFromYear, MakeDay, DaysBefore, DaysInYear, DaysInMonth;
    ProperDateInYear(y, m, d);
    ProperDateInYear(o.year, o.month, o.date);
    YearIsUnique(MakeDay(y, m, d), y, o.year);
    MakeDayProper(y, m, d);
    MakeDayProper(y, o.month, o.date);
    MonthIsUnique(y, DaysBefore(y, m) + d - 1, m, o.month);
  }

  lemma MakeDayShifts(y: int, m: int, d: int, k: int)
    ensures MakeDay(y, m, d + k) == MakeDay(y, m, d) + k
  {
  }

  lemma YearAtLeast365(y: int)
    ensures DaysInYear(y) >= 365
  {
  }

  lemma NineteenCenturiesOn(y: int)
    ensures DayFromYear(y + 1900) >= DayFromYear(y) + 730
  {
    hide DayFromYear, DaysInYear;
    NextYear(y);
    NextYear(y + 1);
    YearAtLeast365(y);
    YearAtLeast365(y + 1);
    YearsAreOrdered(y + 2, y + 1900);
  }

  lemma LeapYearAtMost(y: int)
    ensures DaysInYear(y) <= 366
  {
  }

  lemma CenturyMatters(y: int, m: int, d: int)
    requires 0 <= m < 12
    ensures MakeDay(y + 1900, m, d) > MakeDay(y, m, d)
  {
    hide DayFromYear, DaysInYear;
    MakeDayProper(y, m, d);
    MakeDayProper(y + 1900, m, d);
    NineteenCenturiesOn(y);
    LeapYearAtMost(y);
  }

  /**
   Moving a date object by `k` days through `Create` moves its day number by `k`, exactly when its year is not one
   from 0 to 99.
   */
  lemma CreateShifts(p: int, k: int)
    ensures var o := FromPick(p);
      Create(o.year, o.month, o.date + k) == FromPick(p + k) <==> FullYear(o.year) == o.year
  {
    hide FromPick, MakeDay, DayFromYear, DaysBefore;
    var o := FromPick(p);
    MakeDayShifts(o.year, o.month, o.date, k);
    if FullYear(o.year) != o.year {
      CenturyMatters(o.year, o.month, o.date + k);
    }
  }

  /** `new Date(y, m, d)` of a proper date has that year, month and date. */
  lemma CreateProper(y: int, m: int, d: int)
    requires 0 <= m < 12 && 1 <= d <= DaysInMonth(FullYear(y), m)
    ensures var o := Create(y, m, d); o.year == FullYear(y) && o.month == m && o.date == d
  {
    hide FromPick, MakeDay, DayFromYear, DaysBefore;
    ViewsInvertMakeDay(FullYear(y), m, d);
  }

  /** The days of month `m`, counted on past its end, are the days of the next month. */
  lemma MakeDayNextMonth(y: int, m: int, d: int)
    requires 0 <= m < 12
    ensures MakeDay(y, m, d + DaysInMonth(y, m))
      == MakeDay(if m == 11 then y + 1 else y, if m == 11 then 0 else m + 1, d)
  {
    hide DayFromYear;
    MakeDayProper(y, m, d + DaysInMonth(y, m));
    NextYear(y);
    if m == 11 {
      assert DaysBefore(y, 12) == DaysBefore(y, 11) + DaysInMonth(y, 11);
      MakeDayProper(y + 1, 0, d);
    } else {
      assert DaysBefore(y, m + 1) == DaysBefore(y, m) + DaysInMonth(y, m);
      MakeDayProper(y, m + 1, d);
    }
  }

  lemma ShortMonths(y: int, m: int)
    requires 0 <= m < 12
    ensures 28 <= DaysInMonth(y, m) <= 31
  {
  }

  /** A date past the end of its month is seen as one of another month. */
  lemma CreateOverflows(y: int, m: int, d: int)
    requires 0 <= m < 12 && DaysInMonth(FullYear(y), m) < d <= 31
    ensures Create(y, m, d).month != m
  {
    hide FromPick, MakeDay, DayFromYear, DaysBefore, DaysInMonth;
    var full := FullYear(y);
    var k := d - DaysInMonth(full, m);
    MakeDayNextMonth(full, m, k);
    ShortMonths(full, m);
    var y', m' := if m == 11 then full + 1 else full, if m == 11 then 0 else m + 1;
    ShortMonths(y', m');
    ViewsInvertMakeDay(y', m', k);
  }

  /** The first of a month counted from any year is the first of the month it normalises to. */
  lemma CreateFirstOfMonth(y: int, m: int)
    ensures Create(y, m, 1).year == (if 0 <= y <= 99 then 1900 + y else y) + m / 12
    ensures Create(y, m, 1).month == m % 12 && Create(y, m, 1).date == 1
  {
    hide FromPick, DayFromYear, DaysBefore, DaysInMonth;
    var y', m' := FullYear(y) + m / 12, m % 12;
    MakeDayProper(y', m', 1);
    assert MakeDay(FullYear(y), m, 1) == MakeDay(y', m', 1);
    ShortMonths(y', m');
    ViewsInvertMakeDay(y', m', 1);
  }

  /** Counting back far enough reaches the month `m` again. */
  lemma CreateReaches(y: int, m: int, d: int) returns (e: int)
    requires 0 <= m < 12
    ensures e <= d && Create(y, m, e).month == m
  {
    hide FromPick, MakeDay, DayFromYear, DaysBefore, DaysInMonth;
    var p := MakeDay(FullYear(y), m, d);
    var o := FromPick(p);
    var q := MakeDay(o.year - 1, m, 1);
    e := d - (p - q);
    MakeDayShifts(FullYear(y), m, d, q - p);
    ShortMonths(o.year - 1, m);
    ProperDateInYear(o.year - 1, m, 1);
    ProperDateInYear(o.year, o.month, o.date);
    ViewsInvertMakeDay(o.year - 1, m, 1);
  }

  /** The views of a day make that day again, exactly when its year is not one from 0 to 99. */
  lemma ViewsMakeDay(p: int)
    ensures var o := FromPick(p);
      Create(o.year, o.month, o.date).pick == p <==> FullYear(o.year) == o.year
  {
    hide *;
    var o := FromPick(p);
    CreateShifts(p, 0);
    CreateIsDay(o.year, o.month, o.date);
    PickOf(p);
  }

  // The calendar counted out from one known day

  /** Day 0 is 1 January 1970, a Thursday. */
  lemma EpochIsThursday()
    ensures FromPick(0) == Create(1970, 0, 1) == DateObject(1970, 0, 1, 4, 0)
  {
    hide *;
    MakeDayProper(1970, 0, 1);
    FirstDays();
    ViewsInvertMakeDay(1970, 0, 1);
    CreateMakesDay(1970, 0, 1);
    PickOf(0);
    WeekdayOfPick(0);
  }

  lemma FirstDays()
    ensures DayFromYear(1970) == 0 && DaysBefore(1970, 0) == 0 && DaysInMonth(1970, 0) == 31
  {
  }

  lemma CreateMakesDay(y: int, m: int, d: int)
    requires !(0 <= y <= 99)
    ensures Create(y, m, d) == FromPick(MakeDay(y, m, d))
  {
  }

  /** The length of a month, in plain numbers. */
  lemma MonthLengths(y: int, m: int)
    requires 0 <= m < 12
    ensures DaysInMonth(y, m) ==
      [31, if y % 4 == 0 && (y % 100 != 0 || y % 400 == 0) then 29 else 28, 31, 30, 31, 30, 31, 31, 30, 31, 30, 31][m]
  {
  }

  lemma WeekdayOfPick(p: int)
    ensures FromPick(p).day == (p + 4) % 7
  {
    hide MakeDay;
  }

  /**
   The day after any day: the next date, after the last of a month the first of the next month, after 31 December
   1 January; weekdays follow each other.  Together with `EpochIsThursday` this fixes the views of every day.
   */
  lemma NextDay(p: int)
    ensures var o, next := FromPick(p), FromPick(p + 1);
      var leap := o.year % 4 == 0 && (o.year % 100 != 0 || o.year % 400 == 0);
      var length := [31, if leap then 29 else 28, 31, 30, 31, 30, 31, 31, 30, 31, 30, 31][o.month];
      o.pick == p && next.pick == p + 1 && next.day == (if o.day == 6 then 0 else o.day + 1)
      && 1 <= o.date <= length
      && (next.year, next.month, next.date) ==
           (if o.date < length then (o.year, o.month, o.date + 1)
            else if o.month < 11 then (o.year, o.month + 1, 1) else (o.year + 1, 0, 1))
  {
    hide FromPick, MakeDay, DayFromYear, DaysBefore, DaysInMonth;
    var o := FromPick(p);
    PickOf(p);
    PickOf(p + 1);
    WeekdayOfPick(p);
    WeekdayOfPick(p + 1);
    MonthLengths(o.year, o.month);
    MakeDayShifts(o.year, o.month, o.date, 1);
    if o.date < DaysInMonth(o.year, o.month) {
      ViewsInvertMakeDay(o.year, o.month, o.date + 1);
    } else {
      MakeDayNextMonth(o.year, o.month, 1);
      var y, m := if o.month == 11 then o.year + 1 else o.year, if o.month == 11 then 0 else o.month + 1;
      ShortMonths(y, m);
      ViewsInvertMakeDay(y, m, 1);
    }
  }

  /** The days from 1 January 1970 to that of the year `y`, year by year; negative for earlier years. */
  function YearsFromEpoch(y: int): int
    decreases if y < 1970 then 1970 - y else y - 1970
  {
    if y > 1970 then YearsFromEpoch(y - 1) + DaysInYear(y - 1)
    else if y < 1970 then YearsFromEpoch(y + 1) - DaysInYear(y)
    else 0
  }

  /** The days from 1 January to the first of the month `m`, month by month. */
  function MonthsFromJanuary(y: int, m: int): int
    requires 0 <= m <= 12
  {
    if m == 0 then 0 else MonthsFromJanuary(y, m - 1) + DaysInMonth(y, m - 1)
  }

  lemma {:induction false} YearsAreCounted(y: int)
    ensures DayFromYear(y) == YearsFromEpoch(y)
    decreases if y < 1970 then 1970 - y else y - 1970
  {
    if y != 1970 {
      hide DayFromYear, DaysInYear;
      if y > 1970 {
        YearsAreCounted(y - 1);
        NextYear(y - 1);
      } else {
        YearsAreCounted(y + 1);
        NextYear(y);
      }
    }
  }

  lemma {:induction false} MonthsAreCounted(y: int, m: int)
    requires 0 <= m <= 12
    ensures DaysBefore(y, m) == MonthsFromJanuary(y, m)
  {
    hide DaysInMonth;
    if m > 0 {
      MonthsAreCounted(y, m - 1);
      assert DaysBefore(y, m) == DaysBefore(y, m - 1) + DaysInMonth(y, m - 1);
    }
  }

  /** The day number of any date is the sum of the years, months and days from 1 January 1970 on, or back from it. */
  lemma DaysAreCounted(y: int, m: int, d: int)
    requires 0 <= m < 12
    ensures Create(y, m, d).pick ==
      (var full := if 0 <= y <= 99 then y + 1900 else y;
       YearsFromEpoch(full) + MonthsFromJanuary(full, m) + d - 1)
  {
    hide FromPick, MakeDay, DayFromYear, DaysBefore, YearsFromEpoch, MonthsFromJanuary;
    var full := FullYear(y);
    PickOf(MakeDay(full, m, d));
    MakeDayProper(full, m, d);
    YearsAreCounted(full);
    MonthsAreCounted(full, m);
  }
}
