/** The part of Python's datetime the pipeline relies on: proleptic Gregorian dates of
    years 1..9999, stepping back by whole hours, and the `%Y%m%d`, `%Y-%m-%d` and
    `%Y-%m-%d %H:%M` formats. */
module Calendar {
  import opened Wrappers
  import opened Text

  datatype Date = Date(year: int, month: int, day: int)

  /** A datetime with zero minutes and seconds, as the pipeline builds them. */
  datatype DateHour = DateHour(date: Date, hour: int)

  predicate IsLeapYear(y: int) { y % 4 == 0 && (y % 100 != 0 || y % 400 == 0) }

  function DaysInYear(y: int): int { if IsLeapYear(y) then 366 else 365 }

  function DaysInMonth(y: int, m: int): int
    requires 1 <= m <= 12
  {
    if m == 2 then (if IsLeapYear(y) then 29 else 28)
    else if m == 4 || m == 6 || m == 9 || m == 11 then 30
    else 31
  }

  /** The dates Python's datetime can represent. */
  predicate ValidDate(d: Date)
  {
    1 <= d.year <= 9999 && 1 <= d.month <= 12 && 1 <= d.day <= DaysInMonth(d.year, d.month)
  }

  predicate ValidDateHour(t: DateHour) { ValidDate(t.date) && 0 <= t.hour < 24 }

  /** Days in the years before year y, counted from 0001-01-01. */
  function DaysBeforeYear(y: int): nat
    requires y >= 1
  {
    if y == 1 then 0 else DaysBeforeYear(y - 1) + DaysInYear(y - 1)
  }

  /** Days in the months of year y before month m. */
  function DaysBeforeMonth(y: int, m: int): nat
    requires 1 <= m <= 12
  {
    if m == 1 then 0 else DaysBeforeMonth(y, m - 1) + DaysInMonth(y, m - 1)
  }

  /** Days elapsed since 0001-01-01 (Python's `toordinal() - 1`). */
  function DayNumber(d: Date): nat
    requires ValidDate(d)
  {
    DaysBeforeYear(d.year) + DaysBeforeMonth(d.year, d.month) + d.day - 1
  }

  /** Hours elapsed since 0001-01-01 00:00. */
  function HourNumber(t: DateHour): nat
    requires ValidDateHour(t)
  {
    24 * DayNumber(t.date) + t.hour
  }

  /** The calendar day before d; there is none before 0001-01-01. */
  function PrevDay(d: Date): (r: Option<Date>)
    requires ValidDate(d)
    ensures r.None? <==> d == Date(1, 1, 1)
    ensures r.Some? ==> ValidDate(r.value)
  {
    if d.day > 1 then Some(Date(d.year, d.month, d.day - 1))
    else if d.month > 1 then Some(Date(d.year, d.month - 1, DaysInMonth(d.year, d.month - 1)))
    else if d.year > 1 then Some(Date(d.year - 1, 12, 31))
    else None
  }

  /** The day before is one day number earlier. */
  lemma PrevDayCount(d: Date)
    requires ValidDate(d) && PrevDay(d).Some?
    ensures DayNumber(PrevDay(d).value) + 1 == DayNumber(d)
  {
    if d.day == 1 && d.month == 1 {
      DecemberEnds(d.year - 1);
    }
  }

  lemma DecemberEnds(y: int)
    ensures DaysBeforeMonth(y, 12) + 31 == DaysInYear(y)
  {
    var leap := if IsLeapYear(y) then 1 else 0;
    assert DaysBeforeMonth(y, 2) == 31;
    assert DaysBeforeMonth(y, 3) == 59 + leap;
    assert DaysBeforeMonth(y, 4) == 90 + leap;
    assert DaysBeforeMonth(y, 5) == 120 + leap;
    assert DaysBeforeMonth(y, 6) == 151 + leap;
    assert DaysBeforeMonth(y, 7) == 181 + leap;
    assert DaysBeforeMonth(y, 8) == 212 + leap;
    assert DaysBeforeMonth(y, 9) == 243 + leap;
    assert DaysBeforeMonth(y, 10) == 273 + leap;
    assert DaysBeforeMonth(y, 11) == 304 + leap;
  }

  /** `t - timedelta(hours=k)`, or None when that falls before 0001-01-01 00:00
      (where Python raises OverflowError). */
  function HoursBack(t: DateHour, k: nat): (r: Option<DateHour>)
    requires ValidDateHour(t)
    ensures r.Some? ==> ValidDateHour(r.value)
    decreases k
  {
    if k <= t.hour then Some(DateHour(t.date, t.hour - k))
    else
      match PrevDay(t.date)
      case None => None
      case Some(p) => HoursBack(DateHour(p, 23), k - t.hour - 1)
  }

  /** Stepping back k hours succeeds exactly when k hours remain before 0001-01-01 00:00, and
      lands k hours earlier. */
  lemma {:induction false} HoursBackCount(t: DateHour, k: nat)
    requires ValidDateHour(t)
    ensures HoursBack(t, k).Some? <==> k <= HourNumber(t)
    ensures HoursBack(t, k).Some? ==> HourNumber(HoursBack(t, k).value) + k == HourNumber(t)
    decreases k
  {
    if k > t.hour {
      match PrevDay(t.date)
      case None =>
        assert t.date == Date(1, 1, 1);
        assert HourNumber(t) == t.hour;
      case Some(p) =>
        PrevDayCount(t.date);
        HoursBackCount(DateHour(p, 23), k - t.hour - 1);
    }
  }

  /** Days before a later year cover the whole earlier year. */
  lemma {:induction false} YearsAccumulate(y1: int, y2: int)
    requires 1 <= y1 < y2
    ensures DaysBeforeYear(y1) + DaysInYear(y1) <= DaysBeforeYear(y2)
    decreases y2
  {
    if y2 > y1 + 1 {
      YearsAccumulate(y1, y2 - 1);
    }
  }

  /** Days before a later month cover the whole earlier month. */
  lemma {:induction false} MonthsAccumulate(y: int, m1: int, m2: int)
    requires 1 <= m1 < m2 <= 12
    ensures DaysBeforeMonth(y, m1) + DaysInMonth(y, m1) <= DaysBeforeMonth(y, m2)
    decreases m2
  {
    if m2 > m1 + 1 {
      MonthsAccumulate(y, m1, m2 - 1);
    }
  }

  /** The day of the year of a valid date stays inside the year. */
  lemma DayOfYearBound(d: Date)
    requires ValidDate(d)
    ensures DaysBeforeMonth(d.year, d.month) + d.day <= DaysInYear(d.year)
  {
    DecemberEnds(d.year);
    if d.month < 12 {
      MonthsAccumulate(d.year, d.month, 12);
    }
  }

  /** Different valid dates have different day numbers. */
  lemma DayNumberInjective(d1: Date, d2: Date)
    requires ValidDate(d1) && ValidDate(d2) && DayNumber(d1) == DayNumber(d2)
    ensures d1 == d2
  {
    DayOfYearBound(d1);
    DayOfYearBound(d2);
    if d1.year < d2.year {
      YearsAccumulate(d1.year, d2.year);
      assert false;
    } else if d2.year < d1.year {
      YearsAccumulate(d2.year, d1.year);
      assert false;
    } else if d1.month < d2.month {
      MonthsAccumulate(d1.year, d1.month, d2.month);
      assert false;
    } else if d2.month < d1.month {
      MonthsAccumulate(d1.year, d2.month, d1.month);
      assert false;
    }
  }

  /** Stepping back k hours lands on the one valid date and hour that lies k hours earlier. */
  lemma HoursBackUnique(t: DateHour, k: nat, u: DateHour)
    requires ValidDateHour(t) && ValidDateHour(u) && HourNumber(u) + k == HourNumber(t)
    ensures HoursBack(t, k) == Some(u)
  {
    HoursBackCount(t, k);
    var v := HoursBack(t, k).value;
    DayNumberInjective(u.date, v.date);
  }

  /** `d.strftime('%Y%m%d')`. */
  function FormatCompact(d: Date): string
    requires ValidDate(d)
  {
    ZeroPad(d.year, 4) + ZeroPad(d.month, 2) + ZeroPad(d.day, 2)
  }

  /** The fields of a valid date fit their widths: four digits of year, two of month and day. */
  lemma FieldWidths(d: Date)
    requires ValidDate(d)
    ensures |ZeroPad(d.year, 4)| == 4 && |ZeroPad(d.month, 2)| == 2 && |ZeroPad(d.day, 2)| == 2
    ensures AllDigits(ZeroPad(d.year, 4)) && AllDigits(ZeroPad(d.month, 2)) && AllDigits(ZeroPad(d.day, 2))
  {
    ZeroPadValue(d.year, 4);
    ZeroPadValue(d.month, 2);
    ZeroPadValue(d.day, 2);
  }

  /** `%Y%m%d` is eight digits: year, month and day at fixed offsets. */
  lemma FormatCompactShape(d: Date)
    requires ValidDate(d)
    ensures var s := FormatCompact(d);
      |s| == 8 && AllDigits(s) &&
      s[..4] == ZeroPad(d.year, 4) && s[4..6] == ZeroPad(d.month, 2) && s[6..] == ZeroPad(d.day, 2)
  {
    FieldWidths(d);
    CompactSlices(ZeroPad(d.year, 4), ZeroPad(d.month, 2), ZeroPad(d.day, 2));
  }

  /** Where the three fields of `%Y%m%d` sit in the text. */
  lemma CompactSlices(y: string, m: string, dd: string)
    requires |y| == 4 && |m| == 2 && |dd| == 2 && AllDigits(y) && AllDigits(m) && AllDigits(dd)
    ensures var s := y + m + dd;
      |s| == 8 && AllDigits(s) && s[..4] == y && s[4..6] == m && s[6..] == dd
  {
    var s := y + m + dd;
    assert forall i :: 0 <= i < 8 ==> s[i] == if i < 4 then y[i] else if i < 6 then m[i - 4] else dd[i - 6];
  }

  /** `d.strftime('%Y-%m-%d')`. */
  function FormatIso(d: Date): string
    requires ValidDate(d)
  {
    ZeroPad(d.year, 4) + "-" + ZeroPad(d.month, 2) + "-" + ZeroPad(d.day, 2)
  }

  /** `%Y-%m-%d` is ten characters: year, month and day at fixed offsets between two dashes. */
  lemma FormatIsoShape(d: Date)
    requires ValidDate(d)
    ensures var s := FormatIso(d);
      |s| == 10 && s[4] == '-' && s[7] == '-' &&
      s[..4] == ZeroPad(d.year, 4) && s[5..7] == ZeroPad(d.month, 2) && s[8..] == ZeroPad(d.day, 2)
  {
    FieldWidths(d);
    IsoDateSlices(ZeroPad(d.year, 4), ZeroPad(d.month, 2), ZeroPad(d.day, 2));
  }

  /** Where the three fields of `%Y-%m-%d` sit in the text. */
  lemma IsoDateSlices(y: string, m: string, dd: string)
    requires |y| == 4 && |m| == 2 && |dd| == 2
    ensures var s := y + "-" + m + "-" + dd;
      |s| == 10 && s[4] == '-' && s[7] == '-' && s[..4] == y && s[5..7] == m && s[8..] == dd
  {
  }

  /** The date a year, month and day field denote, if they form a valid date. */
  function DateOf(y: Option<nat>, m: Option<nat>, d: Option<nat>): Option<Date>
  {
    if y.Some? && m.Some? && d.Some? && ValidDate(Date(y.value, m.value, d.value))
    then Some(Date(y.value, m.value, d.value))
    else None
  }

  /** `datetime.strptime(s, '%Y%m%d')` on the eight-digit form. */
  function ParseCompact(s: string): (r: Option<Date>)
    ensures r.Some? ==> ValidDate(r.value)
  {
    if |s| != 8 then None
    else DateOf(ParseDigits(s[..4]), ParseDigits(s[4..6]), ParseDigits(s[6..]))
  }

  /** What parses as `%Y%m%d` is exactly the formatted form of the date it yields. */
  lemma ParseCompactRebuild(s: string)
    requires ParseCompact(s).Some?
    ensures FormatCompact(ParseCompact(s).value) == s
  {
    ParsedDigitsRebuild(s[..4]);
    ParsedDigitsRebuild(s[4..6]);
    ParsedDigitsRebuild(s[6..]);
    assert s == s[..4] + s[4..6] + s[6..];
  }

  /** Formatting a date as `%Y%m%d` and parsing it back gives the date. */
  lemma ParseFormatCompact(d: Date)
    requires ValidDate(d)
    ensures ParseCompact(FormatCompact(d)) == Some(d)
  {
    FormatCompactShape(d);
    ParseZeroPad(d.year, 4);
    ParseZeroPad(d.month, 2);
    ParseZeroPad(d.day, 2);
  }

  /** The text of a datetime in the format `%Y-%m-%d %H:%M`. */
  function FormatIsoMinutes(d: Date, hour: nat, minute: nat): string
    requires ValidDate(d)
  {
    FormatIso(d) + " " + ZeroPad(hour, 2) + ":" + ZeroPad(minute, 2)
  }

  /** `datetime.strptime(s, '%Y-%m-%d %H:%M')` on the zero-padded form; the minutes are
      checked and then dropped, as the pipeline only ever writes `:00`. */
  function ParseIsoMinutes(s: string): (r: Option<DateHour>)
    ensures r.Some? ==> ValidDateHour(r.value)
  {
    if |s| != 16 || s[4] != '-' || s[7] != '-' || s[10] != ' ' || s[13] != ':' then None
    else
      var date := DateOf(ParseDigits(s[..4]), ParseDigits(s[5..7]), ParseDigits(s[8..10]));
      var hour := ParseDigits(s[11..13]);
      var minute := ParseDigits(s[14..]);
      if date.Some? && hour.Some? && minute.Some? && hour.value < 24 && minute.value < 60 then
        Some(DateHour(date.value, hour.value))
      else None
  }

  /** What parses as `%Y-%m-%d %H:%M` is exactly the formatted form of the datetime it yields,
      with a minute field below 60. */
  lemma ParseIsoMinutesRebuild(s: string)
    requires ParseIsoMinutes(s).Some?
    ensures |s| == 16 && ParseDigits(s[14..]).Some? && ParseDigits(s[14..]).value < 60
    ensures var t := ParseIsoMinutes(s).value;
      s == FormatIsoMinutes(t.date, t.hour, ParseDigits(s[14..]).value)
  {
    var t := ParseIsoMinutes(s).value;
    ParsedDigitsRebuild(s[..4]);
    ParsedDigitsRebuild(s[5..7]);
    ParsedDigitsRebuild(s[8..10]);
    ParsedDigitsRebuild(s[11..13]);
    ParsedDigitsRebuild(s[14..]);
    assert s == s[..4] + "-" + s[5..7] + "-" + s[8..10] + " " + s[11..13] + ":" + s[14..];
  }

  /** Where the five fields of `%Y-%m-%d %H:%M` sit in the text. */
  lemma IsoSlices(y: string, m: string, d: string, hh: string, mm: string)
    requires |y| == 4 && |m| == 2 && |d| == 2 && |hh| == 2 && |mm| == 2
    ensures var s := y + "-" + m + "-" + d + " " + hh + ":" + mm;
      |s| == 16 && s[4] == '-' && s[7] == '-' && s[10] == ' ' && s[13] == ':' &&
      s[..4] == y && s[5..7] == m && s[8..10] == d && s[11..13] == hh && s[14..] == mm
  {
  }

  /** Formatting a valid datetime as `%Y-%m-%d %H:%M` and parsing it back gives it back. */
  lemma ParseFormatIsoMinutes(d: Date, hour: nat, minute: nat)
    requires ValidDate(d) && hour < 24 && minute < 60
    ensures ParseIsoMinutes(FormatIsoMinutes(d, hour, minute)) == Some(DateHour(d, hour))
  {
    FieldWidths(d);
    ZeroPadValue(hour, 2);
    ZeroPadValue(minute, 2);
    ParseZeroPad(d.year, 4);
    ParseZeroPad(d.month, 2);
    ParseZeroPad(d.day, 2);
    ParseZeroPad(hour, 2);
    ParseZeroPad(minute, 2);
    ParseIsoFields(ZeroPad(d.year, 4), ZeroPad(d.month, 2), ZeroPad(d.day, 2), ZeroPad(hour, 2), ZeroPad(minute, 2),
                   d, hour, minute);
  }

  /** Five fields that read as a valid date, hour and minute, put together as `%Y-%m-%d %H:%M`,
      parse as that date and hour. */
  lemma ParseIsoFields(y: string, m: string, dd: string, hh: string, mm: string, d: Date, hour: nat, minute: nat)
    requires |y| == 4 && |m| == 2 && |dd| == 2 && |hh| == 2 && |mm| == 2
    requires ParseDigits(y) == Some(d.year) && ParseDigits(m) == Some(d.month) && ParseDigits(dd) == Some(d.day)
    requires ParseDigits(hh) == Some(hour) && ParseDigits(mm) == Some(minute)
    requires ValidDate(d) && hour < 24 && minute < 60
    ensures ParseIsoMinutes(y + "-" + m + "-" + dd + " " + hh + ":" + mm) == Some(DateHour(d, hour))
  {
    IsoSlices(y, m, dd, hh, mm);
  }
}
