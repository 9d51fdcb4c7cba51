/** Timestamps as text (section 5.6 of RFC 3339): what Go's `Format(time.RFC3339)` prints for a time in
    UTC, and what `time.Parse(time.RFC3339, ...)` reads. */
module Rfc3339 {
  import opened Prelude
  import opened Text
  import opened Calendar

  const SECOND: int := 1_000_000_000

  /** 0000-01-01T00:00:00Z and 10000-01-01T00:00:00Z. */
  const YEAR_ZERO: int := -62_167_219_200
  const YEAR_TEN_THOUSAND: int := 253_402_300_800

  // ---------------------------------------------------------------- printing

  /** A time in seconds since 1970. */
  function DateTime(seconds: int): string {
    var date, clock := Civil(seconds / DAY), seconds % DAY;
    YearText(date.year) + Fields(date.month, date.day, clock) + "Z"
  }

  /** `-MM-DDThh:mm:ss`. */
  function Fields(month: nat, day: nat, clock: nat): (s: string)
    ensures |s| == 15
  {
    "-" + FixedDigits(2, month) + "-" + FixedDigits(2, day) + "T" +
    FixedDigits(2, clock / 3600) + ":" + FixedDigits(2, clock / 60 % 60) + ":" + FixedDigits(2, clock % 60)
  }

  // ---------------------------------------------------------------- reading

  /** The number at positions i to j, if they are digits. */
  function NumberAt(s: string, i: nat, j: nat): Option<nat>
    requires i <= j <= |s|
  {
    if AllDigits(s[i..j]) then Some(DigitsValue(s[i..j])) else None
  }

  function DigitsAhead(s: string): (k: nat)
    ensures k <= |s| && AllDigits(s[..k])
  {
    if s == "" || !IsDigit(s[0]) then 0
    else
      var k := 1 + DigitsAhead(s[1..]);
      assert s[..k] == [s[0]] + s[1..][..k - 1];
      k
  }

  /** How long the optional fraction of a second is. */
  function FractionLength(s: string): (k: nat)
    ensures k <= |s|
  {
    if |s| >= 2 && s[0] in {'.', ','} && IsDigit(s[1]) then 1 + DigitsAhead(s[1..]) else 0
  }

  /** Its nanoseconds; digits past the ninth are dropped. */
  function Nanoseconds(s: string): nat {
    var k := FractionLength(s);
    if k == 0 then 0
    else
      var used := if k > 10 then 9 else k - 1;
      PrefixDigits(s[1..], k - 1, used);
      DigitsValue(s[1..][..used]) * Pow10(9 - used)
  }

  lemma PrefixDigits(s: string, k: nat, j: nat)
    requires j <= k <= |s| && AllDigits(s[..k])
    ensures AllDigits(s[..j])
  {
    forall c | c in s[..j] ensures IsDigit(c) {
      var i :| 0 <= i < j && s[i] == c;
      assert s[..k][i] == c;
    }
  }

  /** The zone in seconds east of UTC. */
  function Zone(s: string): Option<int> {
    if s == "Z" then Some(0)
    else if |s| == 6 && s[0] in {'+', '-'} && s[3] == ':' then
      var hours, minutes := NumberAt(s, 1, 3), NumberAt(s, 4, 6);
      if hours.None? || minutes.None? || hours.value > 24 || minutes.value > 60 then None
      else
        var offset := hours.value * 3600 + minutes.value * 60;
        Some(if s[0] == '-' then -offset else offset)
    else None
  }

  /** Nanoseconds since 1970. */
  function ReadDateTime(s: string): Option<int> {
    if |s| < 20 || s[4] != '-' || s[7] != '-' || s[10] != 'T' || s[13] != ':' || s[16] != ':' then None
    else
      var year, month, day := NumberAt(s, 0, 4), NumberAt(s, 5, 7), NumberAt(s, 8, 10);
      var hour, minute, second := NumberAt(s, 11, 13), NumberAt(s, 14, 16), NumberAt(s, 17, 19);
      if year.None? || month.None? || day.None? || hour.None? || minute.None? || second.None? then None
      else
        var date := Date(year.value, month.value, day.value);
        var zone := Zone(s[19 + FractionLength(s[19..])..]);
        if !ValidDate(date) || hour.value >= 24 || minute.value >= 60 || second.value >= 60 || zone.None? then None
        else
          var clock := hour.value * 3600 + minute.value * 60 + second.value;
          Some((DayOf(date) * DAY + clock - zone.value) * SECOND + Nanoseconds(s[19..]))
  }

  // ---------------------------------------------------------------- reading back

  lemma TwoDigits(n: nat)
    requires n < 100
    ensures AllDigits(FixedDigits(2, n)) && DigitsValue(FixedDigits(2, n)) == n
  {
    PowersOfTen();
    FixedValue(2, n);
  }

  lemma FieldsRead(year: string, month: nat, day: nat, clock: nat, zone: string, s: string)
    requires |year| == 4 && month < 100 && day < 100 && clock < DAY && s == year + Fields(month, day, clock) + zone
    ensures |s| == 19 + |zone| &&
            (zone != "" ==> s[4] == '-' && s[7] == '-' && s[10] == 'T' && s[13] == ':' && s[16] == ':')
    ensures s[19..] == zone && s[0..4] == year && s[5..7] == FixedDigits(2, month) && s[8..10] == FixedDigits(2, day)
    ensures s[11..13] == FixedDigits(2, clock / 3600) && s[14..16] == FixedDigits(2, clock / 60 % 60) &&
            s[17..19] == FixedDigits(2, clock % 60)
  {
    hide FixedDigits;
  }

  lemma ClockParts(clock: nat)
    requires clock < DAY
    ensures clock / 3600 < 24 && clock / 60 % 60 < 60 && clock % 60 < 60
    ensures clock / 3600 * 3600 + clock / 60 % 60 * 60 + clock % 60 == clock
  {
    assert clock / 60 / 60 == clock / 3600;
  }

  /** An offset of h hours and m minutes east of UTC, or west of it. */
  lemma ZoneText(h: nat, m: nat)
    requires h < 100 && m < 100
    ensures Zone("+" + FixedDigits(2, h) + ":" + FixedDigits(2, m)) ==
            (if h <= 24 && m <= 60 then Some(h * 3600 + m * 60) else None)
    ensures Zone("-" + FixedDigits(2, h) + ":" + FixedDigits(2, m)) ==
            (if h <= 24 && m <= 60 then Some(-(h * 3600 + m * 60)) else None)
    ensures Zone("Z") == Some(0)
  {
    OffsetText('+', h, m);
    OffsetText('-', h, m);
  }

  lemma OffsetText(sign: char, h: nat, m: nat)
    requires (sign == '+' || sign == '-') && h < 100 && m < 100
    ensures var offset: int := h * 3600 + m * 60;
            Zone([sign] + FixedDigits(2, h) + ":" + FixedDigits(2, m)) ==
            if h > 24 || m > 60 then None else Some(if sign == '-' then -offset else offset)
  {
    hide FixedDigits, DigitsValue, AllDigits;
    TwoDigits(h);
    TwoDigits(m);
    var s := [sign] + FixedDigits(2, h) + ":" + FixedDigits(2, m);
    assert s[1..3] == FixedDigits(2, h) && s[4..6] == FixedDigits(2, m) && s[3] == ':' && s[0] == sign;
  }

  /** The texts of the offsets, in seconds: `Z`, and hours and minutes with a sign. */
  ghost predicate IsOffset(zone: string, h: nat, m: nat, offset: int) {
    || (zone == "Z" && offset == 0)
    || (h <= 24 && m <= 60 && zone == "+" + FixedDigits(2, h) + ":" + FixedDigits(2, m) && offset == h * 3600 + m * 60)
    || (h <= 24 && m <= 60 && zone == "-" + FixedDigits(2, h) + ":" + FixedDigits(2, m) &&
        offset == -(h * 3600 + m * 60))
  }

  /** The fraction of a second with these digits, after a dot or a comma; none for no digits. */
  function Fraction(mark: char, digits: string): string {
    if digits == "" then "" else [mark] + digits
  }

  lemma FractionText(mark: char, digits: string)
    ensures Fraction(mark, digits) == if digits == "" then "" else [mark] + digits
  {
  }

  lemma {:induction false} DigitsAheadAll(digits: string, rest: string)
    requires AllDigits(digits) && (rest == "" || !IsDigit(rest[0]))
    ensures DigitsAhead(digits + rest) == |digits|
  {
    if digits == "" {
      assert digits + rest == rest;
    } else {
      assert digits[0] in digits && (digits + rest)[1..] == digits[1..] + rest;
      assert forall c | c in digits[1..] :: c in digits;
      DigitsAheadAll(digits[1..], rest);
    }
  }

  lemma FractionRead(mark: char, digits: string, zone: string)
    requires (mark == '.' || mark == ',') && AllDigits(digits)
    requires zone != "" && !IsDigit(zone[0]) && zone[0] != '.' && zone[0] != ','
    ensures FractionLength(Fraction(mark, digits) + zone) == |Fraction(mark, digits)|
    ensures Nanoseconds(Fraction(mark, digits) + zone) ==
            if |digits| <= 9 then DigitsValue(digits) * Pow10(9 - |digits|) else DigitsValue(digits[..9])
  {
    hide DigitsAhead, AllDigits, IsDigit;
    var s := Fraction(mark, digits) + zone;
    if digits == "" {
      assert s == zone && DigitsValue(digits) == 0;
    } else {
      assert s == [mark] + digits + zone && s[1..] == digits + zone;
      DigitsAheadAll(digits, zone);
      assert IsDigit(s[1]) by { FirstDigit(digits); }
      if |digits| <= 9 {
        assert s[1..][..|digits|] == digits;
      } else {
        assert s[1..][..9] == digits[..9];
        assert Pow10(0) == 1;
      }
    }
  }

  lemma FirstDigit(s: string)
    requires s != "" && AllDigits(s)
    ensures IsDigit(s[0])
  {
    assert s[0] in s;
  }

  lemma OffsetRead(zone: string, h: nat, m: nat, offset: int)
    requires IsOffset(zone, h, m, offset)
    ensures Zone(zone) == Some(offset) && zone != "" && !IsDigit(zone[0]) && zone[0] != '.' && zone[0] != ','
  {
    hide FixedDigits, Zone;
    if zone == "Z" { ZoneText(0, 0); } else { ZoneText(h, m); }
  }

  /** What the reader makes of its fields. */
  lemma FromFields(s: string, date: Date, clock: nat, offset: int)
    requires |s| >= 20 && s[4] == '-' && s[7] == '-' && s[10] == 'T' && s[13] == ':' && s[16] == ':'
    requires NumberAt(s, 0, 4) == Some(date.year) && NumberAt(s, 5, 7) == Some(date.month) &&
             NumberAt(s, 8, 10) == Some(date.day) && NumberAt(s, 11, 13) == Some(clock / 3600) &&
             NumberAt(s, 14, 16) == Some(clock / 60 % 60) && NumberAt(s, 17, 19) == Some(clock % 60)
    requires clock < DAY && Zone(s[19 + FractionLength(s[19..])..]) == Some(offset)
    ensures ReadDateTime(s) ==
            if ValidDate(date) then Some((DayOf(date) * DAY + clock - offset) * SECOND + Nanoseconds(s[19..])) else None
  {
    hide NumberAt, DayOf, Zone, FractionLength, Nanoseconds, ValidDate;
    ClockParts(clock);
  }

  lemma YearAt(s: string, y: nat)
    requires |s| >= 4 && y < 10_000 && s[0..4] == FixedDigits(4, y)
    ensures NumberAt(s, 0, 4) == Some(y)
  {
    hide FixedDigits;
    PowersOfTen();
    FixedValue(4, y);
  }

  lemma TwoAt(s: string, i: nat, n: nat)
    requires i + 2 <= |s| && n < 100 && s[i..i + 2] == FixedDigits(2, n)
    ensures NumberAt(s, i, i + 2) == Some(n)
  {
    hide FixedDigits;
    TwoDigits(n);
  }

  lemma DateRules(d: Date)
    ensures ValidDate(d) <==>
            1 <= d.month <= 12 &&
            1 <= d.day <= if d.month == 2 then (if d.year % 4 == 0 && (d.year % 100 != 0 || d.year % 400 == 0) then 29
                                                else 28)
                          else if d.month == 4 || d.month == 6 || d.month == 9 || d.month == 11 then 30 else 31
  {
  }

  /** Date and clock, then whatever the optional fraction and the zone are. */
  lemma ReadsTail(date: Date, clock: nat, tail: string, offset: int)
    requires 0 <= date.year < 10_000 && date.month < 100 && date.day < 100 && clock < DAY && tail != ""
    requires Zone(tail[FractionLength(tail)..]) == Some(offset)
    ensures ReadDateTime(YearText(date.year) + Fields(date.month, date.day, clock) + tail) ==
            if ValidDate(date) then Some((DayOf(date) * DAY + clock - offset) * SECOND + Nanoseconds(tail)) else None
  {
    hide FixedDigits, Fields, YearText, DayOf, Zone, FractionLength, Nanoseconds, ReadDateTime, ValidDate, NumberAt;
    var s := YearText(date.year) + Fields(date.month, date.day, clock) + tail;
    FourDigits(date.year);
    FieldsRead(FixedDigits(4, date.year), date.month, date.day, clock, tail, s);
    ClockParts(clock);
    YearAt(s, date.year);
    TwoAt(s, 5, date.month);
    TwoAt(s, 8, date.day);
    TwoAt(s, 11, clock / 3600);
    TwoAt(s, 14, clock / 60 % 60);
    TwoAt(s, 17, clock % 60);
    assert s[19 + FractionLength(tail)..] == tail[FractionLength(tail)..];
    FromFields(s, date, clock, offset);
  }

  /** A date-time with a four-digit year, with or without a fraction, at any offset: the instant is
      the one of that date and clock in UTC, less the offset; digits past the ninth are dropped. A
      date the Gregorian calendar does not have is refused. */
  lemma ReadsZoned(date: Date, clock: nat, mark: char, digits: string, zone: string, h: nat, m: nat, offset: int)
    requires 0 <= date.year < 10_000 && date.month < 100 && date.day < 100 && clock < DAY
    requires (mark == '.' || mark == ',') && AllDigits(digits)
    requires || (zone == "Z" && offset == 0)
             || (h <= 24 && m <= 60 && zone == "+" + FixedDigits(2, h) + ":" + FixedDigits(2, m) &&
                 offset == h * 3600 + m * 60)
             || (h <= 24 && m <= 60 && zone == "-" + FixedDigits(2, h) + ":" + FixedDigits(2, m) &&
                 offset == -(h * 3600 + m * 60))
    ensures ReadDateTime(YearText(date.year) + Fields(date.month, date.day, clock) +
                         (if digits == "" then "" else [mark] + digits) + zone) ==
            if 1 <= date.month <= 12 &&
               1 <= date.day <=
               (if date.month == 2
                then (if date.year % 4 == 0 && (date.year % 100 != 0 || date.year % 400 == 0) then 29 else 28)
                else if date.month == 4 || date.month == 6 || date.month == 9 || date.month == 11 then 30 else 31)
            then Some((DayOf(date) * 86_400 + clock - offset) * 1_000_000_000 +
                      if |digits| <= 9 then DigitsValue(digits) * Pow10(9 - |digits|) else DigitsValue(digits[..9]))
            else None
  {
    hide FixedDigits, Fields, YearText, DigitsValue, DayOf, Zone, FractionLength, Nanoseconds, AllDigits, Pow10,
      IsDigit, ReadDateTime, ValidDate, Fraction;
    assert Fraction(mark, digits) == if digits == "" then "" else [mark] + digits by { FractionText(mark, digits); }
    var text, tail := YearText(date.year) + Fields(date.month, date.day, clock), Fraction(mark, digits) + zone;
    OffsetRead(zone, h, m, offset);
    FractionRead(mark, digits, zone);
    assert tail[|Fraction(mark, digits)|..] == zone;
    ReadsTail(date, clock, tail, offset);
    DateRules(date);
    assert text + Fraction(mark, digits) + zone == text + tail;
  }

  /** The same without a fraction. */
  lemma PlainText(date: Date, clock: nat, zone: string, h: nat, m: nat, offset: int)
    requires 0 <= date.year < 10_000 && ValidDate(date) && clock < DAY && IsOffset(zone, h, m, offset)
    ensures ReadDateTime(YearText(date.year) + Fields(date.month, date.day, clock) + zone) ==
            Some((DayOf(date) * DAY + clock - offset) * SECOND)
  {
    hide ReadDateTime, FixedDigits, Fields, YearText, DayOf;
    ReadsZoned(date, clock, '.', "", zone, h, m, offset);
    assert YearText(date.year) + Fields(date.month, date.day, clock) + "" ==
           YearText(date.year) + Fields(date.month, date.day, clock);
  }

  /** A clock past the day's last second, a separator other than these or another zone is refused. */
  lemma WhatIsRead(s: string)
    requires ReadDateTime(s).Some?
    ensures |s| >= 20 && s[4] == s[7] == '-' && s[10] == 'T' && s[13] == s[16] == ':'
    ensures AllDigits(s[11..13]) && DigitsValue(s[11..13]) < 24
    ensures AllDigits(s[14..16]) && DigitsValue(s[14..16]) < 60
    ensures AllDigits(s[17..19]) && DigitsValue(s[17..19]) < 60
    ensures var zone := s[19 + FractionLength(s[19..])..];
            zone == "Z" || (|zone| == 6 && (zone[0] == '+' || zone[0] == '-') && zone[3] == ':')
  {
    hide DigitsValue, AllDigits, ValidDate, DayOf, Nanoseconds, FractionLength;
    assert NumberAt(s, 11, 13).Some? && NumberAt(s, 14, 16).Some? && NumberAt(s, 17, 19).Some?;
  }

  /** A printed year of four digits is read back with the rest of the time. */
  lemma ReadsFourDigits(seconds: int)
    requires 0 <= Civil(seconds / DAY).year < 10_000
    ensures ReadDateTime(DateTime(seconds)) == Some(seconds * SECOND)
  {
    hide Civil, Fields, YearText, ReadDateTime, DayOf;
    DayOfCivil(seconds / DAY);
    PlainText(Civil(seconds / DAY), seconds % DAY, "Z", 0, 0, 0);
  }

  /** A year before 0 begins with a sign, one after 9999 has a digit where the separator belongs. */
  lemma RefusesOtherYears(seconds: int)
    requires !(0 <= Civil(seconds / DAY).year < 10_000)
    ensures ReadDateTime(DateTime(seconds)) == None
  {
    hide Civil, Fields, Itoa;
    var date := Civil(seconds / DAY);
    var s := DateTime(seconds);
    if date.year < 0 {
      assert s[0] == '-';
      if |s| >= 4 { assert s[0..4][0] == '-' && s[0..4][0] in s[0..4]; }
    } else {
      PowersOfTen();
      ItoaLength(date.year, 4);
      var year := Itoa(date.year);
      assert YearText(date.year) == year;
      assert s[4] == year[4] && year[4] in year;
    }
  }

  lemma YearInSeconds(seconds: int)
    ensures 0 <= Civil(seconds / DAY).year < 10_000 <==> YEAR_ZERO <= seconds < YEAR_TEN_THOUSAND
  {
    hide Civil, YearStart;
    YearFrom(seconds / DAY, 0);
    YearFrom(seconds / DAY, 10_000);
    YearStartClosed(0);
    YearStartClosed(10_000);
    DayOfSecond(seconds, -719_528);
    DayOfSecond(seconds, 2_932_897);
  }

  lemma DayOfSecond(seconds: int, day: int)
    ensures seconds / DAY >= day <==> seconds >= day * DAY
  {
  }

  /** What was printed is read back if and only if its year, in UTC, is one of 0 to 9999. */
  lemma ReadsBack(seconds: int)
    ensures ReadDateTime(DateTime(seconds)) ==
            if YEAR_ZERO <= seconds < YEAR_TEN_THOUSAND then Some(seconds * SECOND) else None
  {
    YearInSeconds(seconds);
    if YEAR_ZERO <= seconds < YEAR_TEN_THOUSAND { ReadsFourDigits(seconds); } else { RefusesOtherYears(seconds); }
  }

  lemma DaysToDecember(y: int)
    ensures MonthStart(y, 12) == YearDays(y) - 31
  {
    assert MonthStart(y, 4) == YearDays(y) - 275 by {
      assert MonthStart(y, 2) == 31 && MonthStart(y, 3) == MonthStart(y, 2) + MonthDays(y, 2);
    }
    assert MonthStart(y, 7) == MonthStart(y, 4) + 91 by {
      assert MonthStart(y, 5) == MonthStart(y, 4) + 30 && MonthStart(y, 6) == MonthStart(y, 5) + 31;
    }
    assert MonthStart(y, 10) == MonthStart(y, 7) + 92 by {
      assert MonthStart(y, 8) == MonthStart(y, 7) + 31 && MonthStart(y, 9) == MonthStart(y, 8) + 31;
    }
    assert MonthStart(y, 11) == MonthStart(y, 10) + 31;
  }

  lemma TwoText(n: nat, a: char, b: char)
    requires n < 100 && IsDigit(a) && IsDigit(b) && DigitValue(a) == n / 10 && DigitValue(b) == n % 10
    ensures FixedDigits(2, n) == [a, b]
  {
    DigitBack(a);
    DigitBack(b);
    assert n / 10 % 10 == n / 10;
    assert FixedDigits(2, n) == FixedDigits(1, n / 10) + [b];
    assert FixedDigits(1, n / 10) == FixedDigits(0, n / 10 / 10) + [a];
  }

  lemma JoinFields(mo: string, d: string, h: string, mi: string, s: string)
    requires mo == "12" && d == "31" && h == "23" && mi == "59" && s == "59"
    ensures "-" + mo + "-" + d + "T" + h + ":" + mi + ":" + s == "-12-31T23:59:59"
  {
    assert "-" + mo + "-" == "-12-";
    assert "-12-" + d + "T" == "-12-31T";
    assert "-12-31T" + h + ":" == "-12-31T23:";
    assert "-12-31T23:" + mi + ":" == "-12-31T23:59:";
    assert "-12-31T23:59:" + s == "-12-31T23:59:59";
  }

  lemma LastSecondFields()
    ensures Fields(12, 31, DAY - 1) == "-12-31T23:59:59"
  {
    TwoText(12, '1', '2');
    TwoText(31, '3', '1');
    TwoText(23, '2', '3');
    TwoText(59, '5', '9');
    hide FixedDigits;
    JoinFields(FixedDigits(2, 12), FixedDigits(2, 31), FixedDigits(2, 23), FixedDigits(2, 59), FixedDigits(2, 59));
  }

  lemma LastYearText()
    ensures YearText(9999) == "9999"
  {
    FourDigits(9999);
    TwoText(99, '9', '9');
    DigitBack('9');
    assert FixedDigits(3, 999) == FixedDigits(2, 99) + ['9'];
    assert FixedDigits(4, 9999) == FixedDigits(3, 999) + ['9'];
  }

  lemma WestOne()
    ensures IsOffset("-01:00", 1, 0, -3600)
  {
    TwoText(1, '0', '1');
    TwoText(0, '0', '0');
    assert "-" + "01" + ":" + "00" == "-01:00";
  }

  /** The last second of the year 9999 in a zone an hour west of UTC: in UTC its year is 10000. */
  lemma LastHour()
    ensures ReadDateTime("9999-12-31T23:59:59-01:00") == Some((YEAR_TEN_THOUSAND - 1 + 3600) * SECOND)
  {
    hide ReadDateTime, IsOffset, Fields, YearText, DayOf, ValidDate;
    var date := Date(9999, 12, 31);
    LastDay();
    WestOne();
    PlainText(date, DAY - 1, "-01:00", 1, 0, -3600);
    LastSecondFields();
    LastYearText();
    assert "9999" + "-12-31T23:59:59" == "9999-12-31T23:59:59";
    assert "9999-12-31T23:59:59" + "-01:00" == "9999-12-31T23:59:59-01:00";
  }

  lemma LastDay()
    ensures ValidDate(Date(9999, 12, 31)) && DayOf(Date(9999, 12, 31)) == 2_932_896
  {
    hide YearStart, MonthStart;
    DaysToDecember(9999);
    YearStartClosed(9999);
  }

  // ---------------------------------------------------------------- the text in file names

  /** A text without its hyphens and colons. */
  function Compact(s: string): string {
    if s == "" then "" else (if s[0] == '-' || s[0] == ':' then [] else [s[0]]) + Compact(s[1..])
  }

  lemma {:induction false} CompactJoins(a: string, b: string)
    ensures Compact(a + b) == Compact(a) + Compact(b)
  {
    if a == "" {
      assert a + b == b;
    } else {
      assert (a + b)[1..] == a[1..] + b;
      CompactJoins(a[1..], b);
    }
  }

  lemma {:induction false} DigitsStay(s: string)
    requires AllDigits(s)
    ensures Compact(s) == s
  {
    if s != "" {
      assert s[0] in s && IsDigit(s[0]) && forall c | c in s[1..] :: c in s;
      DigitsStay(s[1..]);
      assert s == [s[0]] + s[1..];
    }
  }

  lemma Marks()
    ensures Compact("-") == Compact(":") == "" && Compact("T") == "T" && Compact("Z") == "Z"
  {
  }

  lemma FieldsCompact(month: nat, day: nat, clock: nat)
    requires month < 100 && day < 100 && clock < DAY
    ensures Compact(Fields(month, day, clock)) ==
            FixedDigits(2, month) + FixedDigits(2, day) + "T" +
            FixedDigits(2, clock / 3600) + FixedDigits(2, clock / 60 % 60) + FixedDigits(2, clock % 60)
  {
    hide FixedDigits, Compact;
    Marks();
    ClockParts(clock);
    var mo, d, h := FixedDigits(2, month), FixedDigits(2, day), FixedDigits(2, clock / 3600);
    var mi, s := FixedDigits(2, clock / 60 % 60), FixedDigits(2, clock % 60);
    TwoStay(month); TwoStay(day); TwoStay(clock / 3600); TwoStay(clock / 60 % 60); TwoStay(clock % 60);
    CompactJoins("-" + mo + "-" + d + "T" + h + ":" + mi + ":", s);
    CompactJoins("-" + mo + "-" + d + "T" + h + ":" + mi, ":");
    CompactJoins("-" + mo + "-" + d + "T" + h + ":", mi);
    CompactJoins("-" + mo + "-" + d + "T" + h, ":");
    CompactJoins("-" + mo + "-" + d + "T", h);
    CompactJoins("-" + mo + "-" + d, "T");
    CompactJoins("-" + mo + "-", d);
    CompactJoins("-" + mo, "-");
    CompactJoins("-", mo);
  }

  lemma TwoStay(n: nat)
    requires n < 100
    ensures Compact(FixedDigits(2, n)) == FixedDigits(2, n)
  {
    TwoDigits(n);
    DigitsStay(FixedDigits(2, n));
  }

  /** The time in a snapshot's file name is the RFC 3339 text of the same second without hyphens and
      colons. */
  lemma StampIsDateTime(seconds: nat)
    requires seconds < DAY * 365 * 8000
    ensures Stamp(seconds) == Compact(DateTime(seconds))
  {
    hide FixedDigits, Compact, Fields, YearText, YearOf, MonthOf;
    DateFits(seconds / DAY);
    var date, clock := Civil(seconds / DAY), seconds % DAY;
    Marks();
    FourDigits(date.year);
    YearStays(date.year);
    FieldsCompact(date.month, date.day, clock);
    CompactJoins(YearText(date.year) + Fields(date.month, date.day, clock), "Z");
    CompactJoins(YearText(date.year), Fields(date.month, date.day, clock));
  }

  lemma YearStays(y: nat)
    requires y < 10_000
    ensures Compact(FixedDigits(4, y)) == FixedDigits(4, y)
  {
    hide FixedDigits;
    PowersOfTen();
    FixedValue(4, y);
    DigitsStay(FixedDigits(4, y));
  }
}
