/** The calendar conversion of CPER timestamps (amdgv_cper.c). */
module CperTime {
  const DAY: nat := 24 * 60 * 60
  const HOUR: nat := 60 * 60
  const MINUTE: nat := 60

  predicate IsLeap(y: nat) {
    (y % 4 == 0 && y % 100 != 0) || y % 400 == 0
  }

  // ---- the Gregorian calendar, independent of the loops below ----

  function DaysInMonth(y: nat, m: nat): nat
    requires 1 <= m <= 12
  {
    if m == 2 then (if IsLeap(y) then 29 else 28)
    else if m == 4 || m == 6 || m == 9 || m == 11 then 30
    else 31
  }

  function DaysInYear(y: nat): nat {
    if IsLeap(y) then 366 else 365
  }

  /** Days from the start of 1970 to the start of year y, in closed form. */
  function YearStart(y: nat): int
    requires y >= 1970
  {
    365 * (y - 1970) + Leaps(y) - Leaps(1970)
  }

  /** Leap years before year y. */
  function Leaps(y: nat): int
    requires y > 0
  {
    (y - 1) / 4 - (y - 1) / 100 + (y - 1) / 400
  }

  function MonthStart(y: nat, m: nat): nat
    requires 1 <= m <= 13
  {
    if m == 1 then 0 else MonthStart(y, m - 1) + DaysInMonth(y, m - 1)
  }

  datatype Date = Date(year: nat, month: nat, day: nat, hour: nat, minute: nat, second: nat) {
    predicate Valid() {
      && year >= 1970 && 1 <= month <= 12 && 1 <= day <= DaysInMonth(year, month)
      && hour < 24 && minute < 60 && second < 60
    }

    /** Seconds since the start of 1970. */
    function Seconds(): int
      requires Valid()
    {
      (YearStart(year) + MonthStart(year, month) + day - 1) * DAY + hour * HOUR + minute * MINUTE + second
    }
  }

  /** The fields of the record, one byte each. */
  datatype Timestamp = Timestamp(seconds: nat, minutes: nat, hours: nat, day: nat, month: nat, year: nat, century: nat)

  /** What a reader of the record takes the fields to mean. */
  function Read(ts: Timestamp): Date {
    Date(100 * ts.century + ts.year, ts.month, ts.day, ts.hours, ts.minutes, ts.seconds)
  }

  lemma LeapStep(y: nat)
    requires y > 0
    ensures Leaps(y + 1) == Leaps(y) + (if IsLeap(y) then 1 else 0)
  {
    DivStep(y, 4);
    DivStep(y, 100);
    DivStep(y, 400);
    Multiples(y);
  }

  lemma DivStep(y: nat, m: nat)
    requires y > 0 && (m == 4 || m == 100 || m == 400)
    ensures y / m == (y - 1) / m + (if y % m == 0 then 1 else 0)
  {
  }

  lemma Multiples(y: nat)
    ensures y % 400 == 0 ==> y % 100 == 0
    ensures y % 100 == 0 ==> y % 4 == 0
  {
    var q, r := y / 400, y / 100;
    if y % 400 == 0 {
      assert y == 100 * (4 * q);
    }
    if y % 100 == 0 {
      assert y == 4 * (25 * r);
    }
  }

  lemma YearStep(y: nat)
    requires y >= 1970
    ensures YearStart(1970) == 0 && YearStart(y + 1) == YearStart(y) + DaysInYear(y)
  {
    LeapStep(y);
  }

  lemma MonthsAddUp(y: nat)
    ensures MonthStart(y, 13) == DaysInYear(y)
  {
    hide MonthStart;
    assert MonthStart(y, 1) == 0 by { MonthStep(y, 1); }
    MonthStep(y, 1);
    MonthStep(y, 2);
    MonthStep(y, 3);
    MonthStep(y, 4);
    MonthStep(y, 5);
    MonthStep(y, 6);
    MonthStep(y, 7);
    MonthStep(y, 8);
    MonthStep(y, 9);
    MonthStep(y, 10);
    MonthStep(y, 11);
    MonthStep(y, 12);
  }

  lemma MonthStep(y: nat, m: nat)
    requires 1 <= m <= 12
    ensures MonthStart(y, 1) == 0 && MonthStart(y, m + 1) == MonthStart(y, m) + DaysInMonth(y, m)
  {
  }

  // ---- amdgv_cper_fill_timestamp ----

  /** The year loop. */
  method FindYear(total: nat) returns (year: nat, days: nat)
    ensures year >= 1970 && total == YearStart(year) + days && days < DaysInYear(year)
  {
    hide YearStart, IsLeap;
    year, days := 1970, total;
    YearStep(1970);
    while days >= 365
      invariant year >= 1970 && total == YearStart(year) + days
      decreases days
    {
      if IsLeap(year) {
        if days < 366 {
          break;
        }
        YearStep(year);
        days := days - 366;
      } else {
        YearStep(year);
        days := days - 365;
      }
      year := year + 1;
    }
  }

  /** The month loop; its index never leaves the table. */
  method FindMonth(year: nat, dayOfYear: nat) returns (month: nat, day: nat)
    requires dayOfYear < DaysInYear(year)
    ensures 1 <= month <= 12 && 1 <= day <= DaysInMonth(year, month)
    ensures dayOfYear == MonthStart(year, month) + day - 1
  {
    var table: seq<nat> := [31, 28, 31, 30, 31, 30, 31, 31, 30, 31, 30, 31];
    table := table[1 := table[1] + (if IsLeap(year) then 1 else 0)];
    assert forall m :: 0 <= m < 12 ==> table[m] == DaysInMonth(year, m + 1);
    MonthsAddUp(year);
    hide IsLeap, DaysInMonth;
    var days := dayOfYear;
    month := 0;
    while days >= table[month]
      invariant month < 12 && dayOfYear == MonthStart(year, month + 1) + days
      invariant MonthStart(year, 13) == DaysInYear(year)
      decreases 12 - month
    {
      if month == 11 {
        assert false;
      }
      days := days - table[month];
      month := month + 1;
    }
    month := month + 1;
    day := days + 1;
  }

  /**
   * The date and time of day are those of the Gregorian calendar for every 64-bit timestamp; the year and
   * century bytes hold the year exactly when it is below 25600.
   */
  method FillTimestamp(utc: nat) returns (ts: Timestamp)
    ensures exists d: Date ::
              && d.Valid() && d.Seconds() == utc
              && ts == Timestamp(d.second, d.minute, d.hour, d.day, d.month, d.year % 100, d.year / 100 % 256)
              && (Read(ts) == d <==> d.year < 25600)
  {
    var days, rest := utc / DAY, utc % DAY;
    var year, dayOfYear := FindYear(days);
    var month, day := FindMonth(year, dayOfYear);
    var hour, minute, second := 0, 0, 0;
    if rest != 0 {
      hour, minute, second := rest / HOUR, rest % HOUR / MINUTE, rest % MINUTE;
    }
    ts := Timestamp(second, minute, hour, day, month, year % 100, year / 100 % 256);
    ghost var d := Date(year, month, day, hour, minute, second);
    TimeOfDay(rest);
    hide YearStart, DaysInMonth, MonthStart;
    assert utc == days * DAY + rest;
    assert d.Valid() && d.Seconds() == utc;
    YearFits(year);
  }

  lemma TimeOfDay(rest: nat)
    requires rest < DAY
    ensures rest / HOUR < 24 && rest % HOUR / MINUTE < 60 && rest % MINUTE < 60
    ensures rest == rest / HOUR * HOUR + rest % HOUR / MINUTE * MINUTE + rest % MINUTE
  {
    assert rest % HOUR % MINUTE == rest % MINUTE;
  }

  lemma YearFits(y: nat)
    ensures 100 * (y / 100 % 256) + y % 100 == y <==> y < 25600
  {
  }

  /** A timestamp names one date only: two valid dates with the same number of seconds are equal. */
  lemma DatesDiffer(a: Date, b: Date)
    requires a.Valid() && b.Valid() && a.Seconds() == b.Seconds()
    ensures a == b
  {
    hide YearStart, MonthStart, DaysInMonth, DaysInYear;
    var x, y := YearStart(a.year) + MonthStart(a.year, a.month) + a.day - 1, YearStart(b.year) + MonthStart(b.year, b.month) + b.day - 1;
    SameTime(x, y, a.hour, a.minute, a.second, b.hour, b.minute, b.second);
    DayInYear(a);
    DayInYear(b);
    if a.year < b.year {
      YearsApart(a.year + 1, b.year);
      YearStep(a.year);
    } else if b.year < a.year {
      YearsApart(b.year + 1, a.year);
      YearStep(b.year);
    }
    if a.month < b.month {
      MonthsApart(a.year, a.month, b.month);
    } else if b.month < a.month {
      MonthsApart(a.year, b.month, a.month);
    }
  }

  lemma SameTime(x: int, y: int, h: nat, m: nat, s: nat, i: nat, n: nat, t: nat)
    requires h < 24 && m < 60 && s < 60 && i < 24 && n < 60 && t < 60
    requires x * DAY + h * HOUR + m * MINUTE + s == y * DAY + i * HOUR + n * MINUTE + t
    ensures x == y && h == i && m == n && s == t
  {
  }

  lemma DayInYear(d: Date)
    requires d.Valid()
    ensures 0 <= MonthStart(d.year, d.month) + d.day - 1 < DaysInYear(d.year)
  {
    hide DaysInMonth;
    MonthsApart(d.year, d.month, 13);
    MonthsAddUp(d.year);
  }

  lemma {:induction false} MonthsApart(y: nat, m: nat, n: nat)
    requires 1 <= m < n <= 13
    ensures MonthStart(y, m) + DaysInMonth(y, m) <= MonthStart(y, n)
    decreases n
  {
    hide DaysInMonth;
    if n > m + 1 {
      MonthsApart(y, m, n - 1);
    }
  }

  lemma {:induction false} YearsApart(y: nat, z: nat)
    requires 1970 <= y <= z
    ensures YearStart(y) <= YearStart(z)
    decreases z
  {
    hide YearStart;
    if y < z {
      YearsApart(y, z - 1);
      YearStep(z - 1);
    }
  }
}
