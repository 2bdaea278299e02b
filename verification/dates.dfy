/** The runtime's date arithmetic, loop by loop, against the closed-form calendar. */
module Dates {
  import opened Calendar

  /** Division and remainder as in C, toward zero. */
  function Quotient(a: int, b: int): int
    requires b > 0
  {
    if a >= 0 then a / b else -((-a) / b)
  }

  function Remainder(a: int, b: int): int
    requires b > 0
  {
    a - Quotient(a, b) * b
  }

  lemma RemainderRange(a: int, b: int)
    requires b > 0
    ensures a == Quotient(a, b) * b + Remainder(a, b) && -b < Remainder(a, b) < b
    ensures a >= 0 ==> Quotient(a, b) >= 0 && Remainder(a, b) >= 0
    ensures a <= 0 ==> Quotient(a, b) <= 0 && Remainder(a, b) <= 0
  {
    if a >= 0 {
      NatDivision(a, b);
    } else {
      NatDivision(-a, b);
      NegativeTimes((-a) / b, b);
    }
  }

  lemma NatDivision(n: nat, b: int)
    requires b > 0
    ensures 0 <= n - n / b * b < b && n / b >= 0 && n % b == n - n / b * b
  {
  }

  lemma NegativeTimes(q: int, b: int)
    ensures (-q) * b == -(q * b)
  {
  }

  method MonthLengths(year: int) returns (daysInMonths: array<int>)
    ensures fresh(daysInMonths) && daysInMonths.Length == 12
    ensures forall i :: 0 <= i < 12 ==> daysInMonths[i] == MonthDays(year, i + 1)
  {
    daysInMonths := new int[] [31, 28, 31, 30, 31, 30, 31, 31, 30, 31, 30, 31];
    if Leap(year) { daysInMonths[1] := 29; }
  }

  /** `days_from_epoch`: no year before 1970 is counted. */
  method DaysFromEpoch(year: int, month: int, day: int) returns (days: int)
    requires month <= 13
    ensures days == (if year >= 1970 then YearStart(year) else 0) + MonthStart(year, month) + day - 1
    ensures days == DayNumber(Date(year, month, day)) <==> year >= 1970
  {
    hide YearStart, MonthStart, MonthDays;
    EpochStart();
    days := 0;
    var y := 1970;
    while y < year
      invariant y == 1970 || y <= year
      invariant days == YearStart(y)
    {
      YearStep(y);
      days := days + 365 + (if Leap(y) then 1 else 0);
      y := y + 1;
    }
    if year < 1970 { YearsGrow(year, 1970); }
    var daysInMonths := MonthLengths(year);
    var m := 1;
    ghost var years := days;
    MonthStep(year, 1);
    while m < month
      modifies {}
      invariant m == 1 || m <= month
      invariant days == years + MonthStart(year, m)
    {
      MonthStep(year, m + 1);
      days := days + daysInMonths[m - 1];
      m := m + 1;
    }
    MonthStep(year, month);
    days := days + day - 1;
  }

  lemma MonthStep(y: int, m: int)
    requires m <= 13
    ensures MonthStart(y, m) == if m <= 1 then 0 else MonthStart(y, m - 1) + MonthDays(y, m - 1)
  {
  }

  /** The year, month and day loops of `timestamp_to_components`, for any day, past or future. */
  method DateOfDay(dayNumber: int) returns (d: Date)
    ensures ValidDate(d) && DayNumber(d) == dayNumber
  {
    hide YearStart, MonthStart, MonthDays;
    EpochStart();
    var days := dayNumber;
    var y := 1970;
    while days >= 0
      invariant days + YearStart(y) == dayNumber
      invariant days < 0 ==> y == 1970 && days == dayNumber
      decreases days
    {
      YearStep(y);
      var daysInYear := 365 + (if Leap(y) then 1 else 0);
      if days < daysInYear { break; }
      days := days - daysInYear;
      y := y + 1;
    }
    while days < 0
      invariant days + YearStart(y) == dayNumber && days < YearDays(y)
      decreases -days
    {
      y := y - 1;
      YearStep(y);
      days := days + 365 + (if Leap(y) then 1 else 0);
    }
    MonthTable(y);
    var daysInMonths := MonthLengths(y);
    var m := 0;
    MonthStep(y, 1);
    ghost var inYear := days;
    while m < 12 && days >= daysInMonths[m]
      modifies {}
      invariant 0 <= m <= 12 && days >= 0
      invariant inYear == days + MonthStart(y, m + 1)
    {
      MonthStep(y, m + 2);
      assert daysInMonths[m] == MonthDays(y, m + 1);
      days := days - daysInMonths[m];
      m := m + 1;
    }
    assert m < 12 ==> daysInMonths[m] == MonthDays(y, m + 1);
    d := Date(y, m + 1, days + 1);
  }

  /** `timestamp_to_components` on a whole number of milliseconds.  The fields always add up to
      the instant; they are those a clock shows exactly from 1970 on, and before it on the
      stroke of midnight. */
  method Components(timestamp: int) returns (f: Fields)
    ensures ValidDate(f.date) && Instant(f) == timestamp
    ensures ValidTime(f) <==> timestamp >= 0 || timestamp % DAY_MS == 0
  {
    hide YearStart, MonthStart, MonthDays, ValidDate, DayNumber;
    var ts := Quotient(timestamp, 1000);
    var ms := Remainder(timestamp, 1000);
    var second := Remainder(ts, 60);
    ts := Quotient(ts, 60);
    var minute := Remainder(ts, 60);
    ts := Quotient(ts, 60);
    var hour := Remainder(ts, 24);
    ts := Quotient(ts, 24);
    SplitParts(timestamp);
    var date := DateOfDay(ts);
    DateMonth(date);
    f := Fields(date, hour, minute, second, ms);
  }

  lemma DateMonth(d: Date)
    requires ValidDate(d)
    ensures d.month <= 13
  {
  }

  lemma SplitParts(t: int)
    ensures var s := Quotient(t, 1000);
      var m := Quotient(s, 60);
      var h := Quotient(m, 60);
      var ms, second, minute, hour := Remainder(t, 1000), Remainder(s, 60), Remainder(m, 60), Remainder(h, 24);
      && t == Quotient(h, 24) * DAY_MS + hour * 3600000 + minute * 60000 + second * 1000 + ms
      && ms < 1000 && second < 60 && minute < 60 && hour < 24
      && (ms >= 0 && second >= 0 && minute >= 0 && hour >= 0 <==> t >= 0 || t % DAY_MS == 0)
  {
    hide Quotient, Remainder;
    var s := Quotient(t, 1000);
    var m := Quotient(s, 60);
    var h := Quotient(m, 60);
    RemainderRange(t, 1000);
    RemainderRange(s, 60);
    RemainderRange(m, 60);
    RemainderRange(h, 24);
    SumParts(t, s, m, h, Quotient(h, 24), Remainder(t, 1000), Remainder(s, 60), Remainder(m, 60), Remainder(h, 24));
  }

  lemma SumParts(t: int, s: int, m: int, h: int, d: int, ms: int, second: int, minute: int, hour: int)
    requires t == s * 1000 + ms && s == m * 60 + second && m == h * 60 + minute && h == d * 24 + hour
    requires -1000 < ms < 1000 && -60 < second < 60 && -60 < minute < 60 && -24 < hour < 24
    requires t >= 0 ==> ms >= 0 && second >= 0 && minute >= 0 && hour >= 0
    requires t <= 0 ==> ms <= 0 && second <= 0 && minute <= 0 && hour <= 0
    ensures t == d * DAY_MS + hour * 3600000 + minute * 60000 + second * 1000 + ms
    ensures ms >= 0 && second >= 0 && minute >= 0 && hour >= 0 <==> t >= 0 || t % DAY_MS == 0
  {
    if t < 0 {
      MidnightRest(t, d, hour * 3600000 + minute * 60000 + second * 1000 + ms);
    }
  }

  lemma MidnightRest(t: int, q: int, rest: int)
    requires t == q * DAY_MS + rest && -DAY_MS < rest <= 0
    ensures t % DAY_MS == 0 <==> rest == 0
  {
    if t % DAY_MS == 0 {
      assert rest % DAY_MS == 0;
    }
  }

  /** `date_toISOString_ts`. */
  method ToIso(t: int) returns (s: string)
    requires 0 <= t < YearStart(10000) * DAY_MS
    ensures exists f :: Printable(f) && Instant(f) == t && s == IsoText(f)
  {
    hide YearStart;
    var f := Components(t);
    assert 0 <= DayNumber(f.date) < YearStart(10000) by {
      DayBounds(f, t);
    }
    YearOf(f.date);
    s := Padded(f.date.year, 4) + "-" + Padded(f.date.month, 2) + "-" + Padded(f.date.day, 2) + "T"
         + Padded(f.hour, 2) + ":" + Padded(f.minute, 2) + ":" + Padded(f.second, 2) + "." + Padded(f.ms, 3) + "Z";
    assert s == IsoText(f);
  }

  lemma DayBounds(f: Fields, t: int)
    requires ValidDate(f.date) && ValidTime(f) && Instant(f) == t && 0 <= t < YearStart(10000) * DAY_MS
    ensures 0 <= DayNumber(f.date) < YearStart(10000)
  {
    hide YearStart, DayNumber;
    var n := DayNumber(f.date);
    assert 0 <= TimeOfDay(f) < DAY_MS;
  }

  /** `date_parse_ts`. */
  method ParseDate(s: string) returns (t: int)
    requires Readable(s) && ReadFields(s).date.month <= 13
    ensures t == Instant(ReadFields(s)) <==> ReadFields(s).date.year >= 1970
  {
    var f := ReadFields(s);
    hide ReadFields, Readable, YearStart, MonthStart;
    var days := DaysFromEpoch(f.date.year, f.date.month, f.date.day);
    t := days * 86400000 + f.hour * 3600000 + f.minute * 60000 + f.second * 1000 + f.ms;
  }

  /** Printing and parsing an instant gives it back, for every whole millisecond of the years
      1970 to 9999. */
  method PrintThenParse(t: int) returns (s: string, back: int)
    requires 0 <= t < YearStart(10000) * DAY_MS
    ensures back == t && |s| == 24
  {
    hide YearStart;
    s := ToIso(t);
    ghost var f :| Printable(f) && Instant(f) == t && s == IsoText(f);
    IsoRoundTrip(f);
    DayBounds(f, t);
    YearOf(f.date);
    back := ParseDate(s);
  }

  /** The days a date loop yields are those the calendar assigns, and going back from the date
      gives the day again exactly from 1970 on. */
  method DayThenDate(dayNumber: int) returns (d: Date, back: int)
    ensures ValidDate(d) && DayNumber(d) == dayNumber
    ensures back == dayNumber <==> dayNumber >= 0
  {
    d := DateOfDay(dayNumber);
    YearOf(d);
    back := DaysFromEpoch(d.year, d.month, d.day);
  }

  /** Sunday is 0; the first day of 1970 was a Thursday. */
  function Weekday(dayNumber: int): int { (dayNumber + 4) % 7 }

  /** Weekdays follow each other, and 1 January 2000 was a Saturday. */
  lemma WeekdaysFollow(dayNumber: int)
    ensures 0 <= Weekday(dayNumber) < 7
    ensures Weekday(dayNumber + 1) == if Weekday(dayNumber) == 6 then 0 else Weekday(dayNumber) + 1
    ensures Weekday(DayNumber(Date(2000, 1, 1))) == 6
  {
    KnownDays();
    hide DayNumber;
  }

  /** `date_getDay_ts` finds the right day, but before 28 December 1969 it gives the day's number
      less seven, unless it is a Sunday. */
  method GetDay(t: int) returns (w: int)
    ensures w == Weekday(t / DAY_MS) <==> t >= -4 * DAY_MS || Weekday(t / DAY_MS) == 0
    ensures w == Weekday(t / DAY_MS) || w == Weekday(t / DAY_MS) - 7
  {
    var td := Quotient(t, DAY_MS);
    if t < 0 && Remainder(t, DAY_MS) != 0 { td := td - 1; }
    FloorDay(t);
    assert td == t / DAY_MS;
    w := Remainder(td + 4, 7);
    FloorRemainder(td + 4);
  }

  lemma FloorDay(t: int)
    ensures t / DAY_MS == if t < 0 && Remainder(t, DAY_MS) != 0 then Quotient(t, DAY_MS) - 1 else Quotient(t, DAY_MS)
    ensures t >= -4 * DAY_MS <==> t / DAY_MS >= -4
  {
    RemainderRange(t, DAY_MS);
    hide Quotient, Remainder;
    FloorIs(t, Quotient(t, DAY_MS), Remainder(t, DAY_MS));
  }

  lemma FloorIs(t: int, q: int, r: int)
    requires t == q * DAY_MS + r && -DAY_MS < r < DAY_MS && (t >= 0 ==> r >= 0) && (t <= 0 ==> r <= 0)
    ensures t / DAY_MS == if t < 0 && r != 0 then q - 1 else q
  {
  }

  lemma FloorRemainder(a: int)
    ensures Remainder(a, 7) == if a >= 0 || a % 7 == 0 then a % 7 else a % 7 - 7
  {
  }
}
