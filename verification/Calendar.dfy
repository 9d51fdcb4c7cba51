/** Civil time in UTC, its two texts in Natbox (`20060102T150405Z` in file names, RFC 3339 in the table)
    and reading the second one back. */
module Calendar {
  import opened Text

  predicate Leap(y: int) {
    y % 4 == 0 && (y % 100 != 0 || y % 400 == 0)
  }

  function YearDays(y: int): nat {
    if Leap(y) then 366 else 365
  }

  function MonthDays(y: int, m: nat): nat {
    if m == 2 then (if Leap(y) then 29 else 28) else if m == 4 || m == 6 || m == 9 || m == 11 then 30 else 31
  }

  /** The year of the n-th day counted from the first of year y, and the day's number in it. */
  function YearOf(y: int, n: int): (int, nat)
    decreases n < 0, if n < 0 then -n else n
  {
    if n < 0 then YearOf(y - 1, n + YearDays(y - 1))
    else if n < YearDays(y) then (y, n)
    else YearOf(y + 1, n - YearDays(y))
  }

  /** The month of the n-th day counted from the first of month m, and the day's number in it. */
  function MonthOf(y: int, m: nat, n: nat): (nat, nat)
    decreases 12 - m
  {
    if m >= 12 || n < MonthDays(y, m) then (m, n) else MonthOf(y, m + 1, n - MonthDays(y, m))
  }

  const DAY: nat := 86_400

  datatype Date = Date(year: int, month: nat, day: nat)

  /** The date of a day counted from 1970-01-01. */
  function Civil(day: int): Date {
    var (year, inYear) := YearOf(1970, day);
    var (month, inMonth) := MonthOf(year, 1, inYear);
    Date(year, month, inMonth + 1)
  }

  /** Go pads a year to four digits, after the sign; a later year takes more. */
  function YearText(y: int): string {
    if y < 0 then "-" + Padded(4, -y) else Padded(4, y)
  }

  // ---------------------------------------------------------------- file names

  /** The text of a time in seconds since 1970. */
  function Stamp(seconds: nat): string {
    var date := Civil(seconds / DAY);
    YearText(date.year) + (FixedDigits(2, date.month) + (FixedDigits(2, date.day) + ("T" + OfClock(seconds % DAY))))
  }

  function OfClock(clock: nat): string {
    FixedDigits(2, clock / 3600) + (FixedDigits(2, clock / 60 % 60) + (FixedDigits(2, clock % 60) + "Z"))
  }

  lemma FourDigits(y: int)
    requires 0 <= y < 10_000
    ensures YearText(y) == FixedDigits(4, y)
  {
    PowersOfTen();
    PaddedIsFixed(4, y);
  }

  lemma StampLength(seconds: nat)
    requires seconds < DAY * 365 * 8000
    ensures |Stamp(seconds)| == 16
  {
    hide YearOf, MonthOf;
    DateFits(seconds / DAY);
    FourDigits(Civil(seconds / DAY).year);
  }

  lemma {:induction false} YearOrder(y: int, m: nat, n: nat)
    requires m < n
    ensures YearOf(y, m).0 < YearOf(y, n).0 || (YearOf(y, m).0 == YearOf(y, n).0 && YearOf(y, m).1 < YearOf(y, n).1)
    ensures YearOf(y, m).0 >= y
    decreases n
  {
    if m >= YearDays(y) {
      YearOrder(y + 1, m - YearDays(y), n - YearDays(y));
    } else if n >= YearDays(y) {
      YearAtLeast(y + 1, n - YearDays(y));
    }
  }

  lemma {:induction false} YearAtLeast(y: int, n: nat)
    ensures y <= YearOf(y, n).0 <= y + n / 365 && YearOf(y, n).1 < 366
    decreases n
  {
    if n >= YearDays(y) { YearAtLeast(y + 1, n - YearDays(y)); }
  }

  lemma {:induction false} MonthOrder(y: int, k: nat, m: nat, n: nat)
    requires m < n && k <= 12
    ensures MonthOf(y, k, m).0 < MonthOf(y, k, n).0 ||
            (MonthOf(y, k, m).0 == MonthOf(y, k, n).0 && MonthOf(y, k, m).1 < MonthOf(y, k, n).1)
    ensures k <= MonthOf(y, k, m).0 <= MonthOf(y, k, n).0 <= 12
    decreases 12 - k
  {
    if k < 12 && m >= MonthDays(y, k) {
      MonthOrder(y, k + 1, m - MonthDays(y, k), n - MonthDays(y, k));
    } else if k < 12 && n >= MonthDays(y, k) {
      MonthAtLeast(y, k + 1, n - MonthDays(y, k));
    }
  }

  lemma {:induction false} MonthAtLeast(y: int, k: nat, n: nat)
    requires k <= 12
    ensures k <= MonthOf(y, k, n).0 <= 12
    decreases 12 - k
  {
    if k < 12 && n >= MonthDays(y, k) { MonthAtLeast(y, k + 1, n - MonthDays(y, k)); }
  }

  /** The days of the months k to 12. */
  function DaysFrom(y: int, k: nat): nat
    decreases 12 - k
  {
    MonthDays(y, k) + if k >= 12 then 0 else DaysFrom(y, k + 1)
  }

  lemma {:induction false} DayBound(y: int, k: nat, n: nat)
    requires k <= 12 && n < DaysFrom(y, k)
    ensures MonthOf(y, k, n).1 < 31
    decreases 12 - k
  {
    if k < 12 && n >= MonthDays(y, k) { DayBound(y, k + 1, n - MonthDays(y, k)); }
  }

  lemma MonthsFillYear(y: int)
    ensures DaysFrom(y, 1) == YearDays(y)
  {
    assert DaysFrom(y, 9) == 30 + 31 + 30 + 31 by {
      assert DaysFrom(y, 11) == 30 + DaysFrom(y, 12);
      assert DaysFrom(y, 10) == 31 + DaysFrom(y, 11);
    }
    assert DaysFrom(y, 5) == 31 + 30 + 31 + 31 + DaysFrom(y, 9) by {
      assert DaysFrom(y, 7) == 31 + DaysFrom(y, 8);
      assert DaysFrom(y, 6) == 30 + DaysFrom(y, 7);
    }
    assert DaysFrom(y, 3) == 31 + 30 + DaysFrom(y, 5);
  }

  lemma {:induction false} InYear(y: int, n: nat)
    ensures YearOf(y, n).1 < YearDays(YearOf(y, n).0)
    decreases n
  {
    if n >= YearDays(y) { InYear(y + 1, n - YearDays(y)); }
  }

  /** One fixed-width field in front: the smaller field wins, and equal fields leave it to the
      rest. */
  lemma FieldOrder(w: nat, m: nat, n: nat, x: string, y: string)
    requires m < Pow10(w) && n < Pow10(w) && (m < n || (m == n && StrLess(x, y)))
    ensures StrLess(FixedDigits(w, m) + x, FixedDigits(w, n) + y)
  {
    if m < n {
      FixedOrder(w, m, n);
      StrLessHead(FixedDigits(w, m), FixedDigits(w, n), x, y);
    } else {
      StrLessPrefix(FixedDigits(w, m), x, y);
    }
  }

  lemma PowersOfTen()
    ensures Pow10(2) == 100 && Pow10(4) == 10_000
  {
    assert Pow10(1) == 10 * Pow10(0);
    assert Pow10(3) == 10 * Pow10(2);
  }

  lemma ClockOrder(a: nat, b: nat)
    requires a < b < DAY
    ensures StrLess(OfClock(a), OfClock(b))
  {
    hide FixedDigits, StrLess;
    PowersOfTen();
    var x, y := FixedDigits(2, a % 60) + "Z", FixedDigits(2, b % 60) + "Z";
    if a / 60 == b / 60 {
      FieldOrder(2, a % 60, b % 60, "Z", "Z");
      FieldOrder(2, a / 60 % 60, b / 60 % 60, x, y);
    } else if a / 3600 == b / 3600 {
      assert a / 60 / 60 == a / 3600 && b / 60 / 60 == b / 3600;
      FieldOrder(2, a / 60 % 60, b / 60 % 60, x, y);
    }
    FieldOrder(2, a / 3600, b / 3600, FixedDigits(2, a / 60 % 60) + x, FixedDigits(2, b / 60 % 60) + y);
  }

  lemma DateFits(day: nat)
    requires day < 365 * 8000
    ensures 1970 <= Civil(day).year < 10_000 && Civil(day).month <= 12 && Civil(day).day < 100
  {
    YearAtLeast(1970, day);
    InYear(1970, day);
    var (year, inYear) := YearOf(1970, day);
    MonthsFillYear(year);
    MonthAtLeast(year, 1, inYear);
    DayBound(year, 1, inYear);
  }

  /** Through the year 9969 the byte order of the texts is the order of the times. */
  lemma StampOrder(a: nat, b: nat)
    requires a < b < DAY * 365 * 8000
    ensures StrLess(Stamp(a), Stamp(b))
  {
    hide FixedDigits, StrLess, YearOf, MonthOf, OfClock;
    PowersOfTen();
    DateFits(a / DAY);
    DateFits(b / DAY);
    FourDigits(Civil(a / DAY).year);
    FourDigits(Civil(b / DAY).year);
    var (y1, d1) := YearOf(1970, a / DAY);
    var (y2, d2) := YearOf(1970, b / DAY);
    var (m1, e1) := MonthOf(y1, 1, d1);
    var (m2, e2) := MonthOf(y2, 1, d2);
    var t1, t2 := "T" + OfClock(a % DAY), "T" + OfClock(b % DAY);
    if a / DAY == b / DAY {
      ClockOrder(a % DAY, b % DAY);
      StrLessPrefix("T", OfClock(a % DAY), OfClock(b % DAY));
    } else {
      YearOrder(1970, a / DAY, b / DAY);
      if y1 == y2 { MonthOrder(y1, 1, d1, d2); }
    }
    if y1 == y2 && m1 == m2 { FieldOrder(2, e1 + 1, e2 + 1, t1, t2); }
    if y1 == y2 { FieldOrder(2, m1, m2, FixedDigits(2, e1 + 1) + t1, FixedDigits(2, e2 + 1) + t2); }
    FieldOrder(4, y1, y2, FixedDigits(2, m1) + (FixedDigits(2, e1 + 1) + t1),
               FixedDigits(2, m2) + (FixedDigits(2, e2 + 1) + t2));
  }

  // ---------------------------------------------------------------- counting days back

  /** The days from 1970-01-01 to the first of year y. */
  function YearStart(y: int): int
    decreases if y < 1970 then 1970 - y else y - 1970
  {
    if y == 1970 then 0 else if y > 1970 then YearStart(y - 1) + YearDays(y - 1) else YearStart(y + 1) - YearDays(y)
  }

  lemma {:induction false} YearStartCounts(y: int, n: int)
    ensures YearStart(y) + n == YearStart(YearOf(y, n).0) + YearOf(y, n).1 && YearOf(y, n).1 < YearDays(YearOf(y, n).0)
    decreases n < 0, if n < 0 then -n else n
  {
    assert YearStart(y + 1) == YearStart(y) + YearDays(y);
    assert YearStart(y) == YearStart(y - 1) + YearDays(y - 1);
    if n < 0 {
      YearStartCounts(y - 1, n + YearDays(y - 1));
    } else if n >= YearDays(y) {
      YearStartCounts(y + 1, n - YearDays(y));
    }
  }

  lemma {:induction false} YearStartGrows(y: int, z: int)
    requires y <= z
    ensures YearStart(y) <= YearStart(z)
    decreases z - y
  {
    if y < z {
      YearStartGrows(y, z - 1);
      assert YearStart(z) == YearStart(z - 1) + YearDays(z - 1);
    }
  }

  /** A day's year is at least y exactly when the day is at least the first of year y. */
  lemma YearFrom(day: int, y: int)
    ensures Civil(day).year >= y <==> day >= YearStart(y)
  {
    YearStartCounts(1970, day);
    var z := Civil(day).year;
    if z >= y {
      YearStartGrows(y, z);
    } else {
      YearStartGrows(z + 1, y);
      assert YearStart(z + 1) == YearStart(z) + YearDays(z);
    }
  }

  /** The days of year y before its month m. */
  function MonthStart(y: int, m: nat): nat {
    if m <= 1 then 0 else MonthStart(y, m - 1) + MonthDays(y, m - 1)
  }

  lemma NextMonth(y: int, k: nat)
    requires 1 <= k < 12
    ensures MonthStart(y, k + 1) == MonthStart(y, k) + MonthDays(y, k)
    ensures DaysFrom(y, k) == MonthDays(y, k) + DaysFrom(y, k + 1)
  {
  }

  lemma {:induction false} MonthStartCounts(y: int, k: nat, n: nat)
    requires 1 <= k <= 12 && n < DaysFrom(y, k)
    ensures k <= MonthOf(y, k, n).0 <= 12
    ensures MonthStart(y, k) + n == MonthStart(y, MonthOf(y, k, n).0) + MonthOf(y, k, n).1
    ensures MonthOf(y, k, n).1 < MonthDays(y, MonthOf(y, k, n).0)
    decreases 12 - k
  {
    assert k == 12 ==> DaysFrom(y, k) == MonthDays(y, k);
    hide MonthDays, MonthStart, DaysFrom;
    if k < 12 {
      NextMonth(y, k);
      if n >= MonthDays(y, k) { MonthStartCounts(y, k + 1, n - MonthDays(y, k)); }
    }
  }

  /** The day of a date, counted from 1970-01-01. */
  function DayOf(d: Date): int {
    YearStart(d.year) + MonthStart(d.year, d.month) + d.day - 1
  }

  predicate ValidDate(d: Date) {
    1 <= d.month <= 12 && 1 <= d.day <= MonthDays(d.year, d.month)
  }

  lemma FirstStarts(y: int)
    ensures YearStart(1970) == 0 && MonthStart(y, 1) == 0
  {
  }

  /** Every day has a valid date, and that date is of that day. */
  lemma DayOfCivil(day: int)
    ensures ValidDate(Civil(day)) && DayOf(Civil(day)) == day
  {
    hide YearOf, MonthOf, YearStart, MonthStart, MonthDays, DaysFrom, YearDays;
    var (y, n) := YearOf(1970, day);
    FirstStarts(y);
    YearStartCounts(1970, day);
    MonthsFillYear(y);
    MonthStartCounts(y, 1, n);
    var (m, d) := MonthOf(y, 1, n);
    assert Civil(day) == Date(y, m, d + 1);
    assert ValidDate(Date(y, m, d + 1));
  }

  /** The leap days before year y. */
  function LeapsBefore(y: int): int {
    (y - 1) / 4 - (y - 1) / 100 + (y - 1) / 400
  }

  lemma DivStep(y: int, k: nat)
    requires k in {4, 100, 400}
    ensures y / k - (y - 1) / k == if y % k == 0 then 1 else 0
  {
    if k == 4 { } else if k == 100 { } else { }
  }

  lemma Multiples(z: int)
    ensures 4 * z % 4 == 0 && 100 * z % 100 == 0
  {
  }

  lemma Centuries(y: int)
    ensures (y % 400 == 0 ==> y % 100 == 0) && (y % 100 == 0 ==> y % 4 == 0)
  {
    Multiples(25 * (y / 100));
    Multiples(4 * (y / 400));
    assert y % 100 == 0 ==> y == 4 * (25 * (y / 100));
    assert y % 400 == 0 ==> y == 100 * (4 * (y / 400));
  }

  lemma LeapStep(y: int)
    ensures LeapsBefore(y + 1) - LeapsBefore(y) == if Leap(y) then 1 else 0
  {
    DivStep(y, 4);
    DivStep(y, 100);
    DivStep(y, 400);
    Centuries(y);
  }

  lemma {:induction false} YearStartClosed(y: int)
    ensures YearStart(y) == 365 * (y - 1970) + LeapsBefore(y) - LeapsBefore(1970)
    decreases if y < 1970 then 1970 - y else y - 1970
  {
    hide LeapsBefore;
    if y > 1970 {
      YearStartClosed(y - 1);
      LeapStep(y - 1);
    } else if y < 1970 {
      YearStartClosed(y + 1);
      LeapStep(y);
    }
  }

  lemma {:induction false} MonthTable(y: int, m: nat)
    requires 1 <= m <= 12
    ensures MonthStart(y, m) ==
            [0, 31, 59, 90, 120, 151, 181, 212, 243, 273, 304, 334][m - 1] +
            if m > 2 && y % 4 == 0 && (y % 100 != 0 || y % 400 == 0) then 1 else 0
  {
    hide MonthStart;
    FirstStarts(y);
    if m > 1 {
      MonthTable(y, m - 1);
      NextMonth(y, m - 1);
    }
  }

  /** The day of a date in closed form: whole years, leap days before the year, the days before the
      month, the leap day of the year itself. */
  lemma DayFormula(d: Date)
    requires ValidDate(d)
    ensures DayOf(d) ==
            365 * (d.year - 1970) + (d.year - 1) / 4 - (d.year - 1) / 100 + (d.year - 1) / 400 - 477 +
            [0, 31, 59, 90, 120, 151, 181, 212, 243, 273, 304, 334][d.month - 1] +
            (if d.month > 2 && d.year % 4 == 0 && (d.year % 100 != 0 || d.year % 400 == 0) then 1 else 0) + d.day - 1
  {
    hide YearStart, MonthStart;
    YearStartClosed(d.year);
    MonthTable(d.year, d.month);
    assert LeapsBefore(1970) == 477;
  }
}
