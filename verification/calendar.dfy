/** The Gregorian calendar in closed form, and the texts of ISO 8601 instants. */
module Calendar {

  predicate Leap(y: int) { y % 4 == 0 && (y % 100 != 0 || y % 400 == 0) }

  function YearDays(y: int): nat { if Leap(y) then 366 else 365 }

  /** Leap years up to and including y, by the Gregorian rule. */
  function LeapsThrough(y: int): int { y / 4 - y / 100 + y / 400 }

  /** Days from 1 January 1970 to 1 January of year y. */
  function YearStart(y: int): int { 365 * (y - 1970) + LeapsThrough(y - 1) - LeapsThrough(1969) }

  function MonthDays(y: int, m: int): (n: nat)
    requires 1 <= m <= 12
    ensures 28 <= n <= 31
  {
    if m == 2 then (if Leap(y) then 29 else 28) else if m == 4 || m == 6 || m == 9 || m == 11 then 30 else 31
  }

  /** Days of the year before month m. */
  function MonthStart(y: int, m: int): nat
    requires m <= 13
    decreases m
  {
    if m <= 1 then 0 else MonthStart(y, m - 1) + MonthDays(y, m - 1)
  }

  datatype Date = Date(year: int, month: int, day: int)

  predicate ValidDate(d: Date) { 1 <= d.month <= 12 && 1 <= d.day <= MonthDays(d.year, d.month) }

  function DayNumber(d: Date): int
    requires d.month <= 13
  {
    YearStart(d.year) + MonthStart(d.year, d.month) + d.day - 1
  }

  /** The closed form counts the days of every year, past or future. */
  lemma YearStep(y: int)
    ensures YearStart(y + 1) == YearStart(y) + YearDays(y)
  {
    QuotientStep(y, 4);
    QuotientStep(y, 100);
    QuotientStep(y, 400);
    Nested(y);
  }

  lemma QuotientStep(y: int, k: nat)
    requires k == 4 || k == 100 || k == 400
    ensures y / k - (y - 1) / k == if y % k == 0 then 1 else 0
  {
  }

  lemma Nested(y: int)
    ensures (y % 400 == 0 ==> y % 100 == 0) && (y % 100 == 0 ==> y % 4 == 0)
  {
  }

  lemma {:induction false} YearsGrow(y: int, z: int)
    requires y < z
    ensures YearStart(y) + 365 * (z - y) <= YearStart(z)
    ensures YearStart(y) + YearDays(y) <= YearStart(z)
    decreases z - y
  {
    YearStep(z - 1);
    hide YearStart;
    if y < z - 1 { YearsGrow(y, z - 1); } else { YearStep(y); }
  }

  lemma EpochStart()
    ensures YearStart(1970) == 0 && YearStart(10000) == 2932897
  {
  }

  lemma MonthTable(y: int)
    ensures MonthStart(y, 13) == YearDays(y)
  {
    assert MonthStart(y, 5) == MonthStart(y, 2) + MonthDays(y, 2) + MonthDays(y, 3) + MonthDays(y, 4);
    assert MonthStart(y, 9) == MonthStart(y, 5) + MonthDays(y, 5) + MonthDays(y, 6) + MonthDays(y, 7) + MonthDays(y, 8);
  }

  /** The months from March on follow a formula without any table; February has the leap day. */
  lemma {:induction false} MonthFormula(y: int, m: int)
    requires 1 <= m <= 13
    ensures MonthStart(y, m)
      == if m <= 2 then 31 * (m - 1)
         else (153 * (m - 3) + 2) / 5 + 59 + (if y % 4 == 0 && (y % 100 != 0 || y % 400 == 0) then 1 else 0)
    decreases m
  {
    if m > 1 {
      MonthFormula(y, m - 1);
      assert Leap(y) <==> y % 4 == 0 && (y % 100 != 0 || y % 400 == 0);
      hide Leap;
      if m > 3 { MarchOn(m - 3); }
    }
  }

  lemma MarchOn(k: nat)
    requires 1 <= k <= 10
    ensures (153 * k + 2) / 5 - (153 * (k - 1) + 2) / 5
      == if k == 2 || k == 4 || k == 7 || k == 9 then 30 else 31
  {
  }

  /** Days are numbered from 1 January 1970, and the calendar agrees with a date known otherwise:
      1 January 2000 is day 10957. */
  lemma KnownDays()
    ensures DayNumber(Date(1970, 1, 1)) == 0 && DayNumber(Date(2000, 1, 1)) == 10957
    ensures DayNumber(Date(2000, 2, 29)) + 1 == DayNumber(Date(2000, 3, 1))
  {
    MonthFormula(2000, 2);
    MonthFormula(2000, 3);
  }

  lemma {:induction false} MonthsGrow(y: int, m: int, n: int)
    requires 1 <= m < n <= 13
    ensures MonthStart(y, m) + MonthDays(y, m) <= MonthStart(y, n)
    decreases n
  {
    if m < n - 1 { MonthsGrow(y, m, n - 1); }
  }

  lemma WithinYear(d: Date)
    requires ValidDate(d)
    ensures YearStart(d.year) <= DayNumber(d) < YearStart(d.year) + YearDays(d.year)
  {
    MonthTable(d.year);
    if d.month < 13 { MonthsGrow(d.year, d.month, 13); }
  }

  lemma LaterYear(d: Date, e: Date)
    requires ValidDate(d) && ValidDate(e) && d.year < e.year
    ensures DayNumber(d) < DayNumber(e)
  {
    WithinYear(d);
    WithinYear(e);
    YearsGrow(d.year, e.year);
    hide YearStart, MonthStart, ValidDate, DayNumber;
  }

  lemma LaterMonth(d: Date, e: Date)
    requires ValidDate(d) && ValidDate(e) && d.year == e.year && d.month < e.month
    ensures DayNumber(d) < DayNumber(e)
  {
    MonthsGrow(d.year, d.month, e.month);
    hide YearStart, MonthStart;
  }

  /** A day has one date. */
  lemma DateUnique(d: Date, e: Date)
    requires ValidDate(d) && ValidDate(e) && DayNumber(d) == DayNumber(e)
    ensures d == e
  {
    hide YearStart, MonthStart, MonthDays;
    if d.year < e.year { LaterYear(d, e); }
    if e.year < d.year { LaterYear(e, d); }
    if d.year == e.year {
      if d.month < e.month { LaterMonth(d, e); }
      if e.month < d.month { LaterMonth(e, d); }
    }
  }

  lemma YearOf(d: Date)
    requires ValidDate(d)
    ensures DayNumber(d) >= 0 <==> d.year >= 1970
    ensures DayNumber(d) < YearStart(10000) <==> d.year < 10000
  {
    WithinYear(d);
    EpochStart();
    hide DayNumber, YearStart, ValidDate;
    if d.year < 1970 { YearsGrow(d.year, 1970); }
    if d.year > 1970 { YearsGrow(1970, d.year); }
    if d.year < 10000 { YearsGrow(d.year, 10000); }
    if d.year > 10000 { YearsGrow(10000, d.year); }
  }

  // ---------- instants ----------

  datatype Fields = Fields(date: Date, hour: int, minute: int, second: int, ms: int)

  const DAY_MS: int := 86400000

  function TimeOfDay(f: Fields): int { f.hour * 3600000 + f.minute * 60000 + f.second * 1000 + f.ms }

  function Instant(f: Fields): int
    requires f.date.month <= 13
  {
    DayNumber(f.date) * DAY_MS + TimeOfDay(f)
  }

  predicate ValidTime(f: Fields) {
    0 <= f.hour < 24 && 0 <= f.minute < 60 && 0 <= f.second < 60 && 0 <= f.ms < 1000
  }

  /** An instant has one set of fields. */
  lemma FieldsUnique(f: Fields, g: Fields)
    requires ValidDate(f.date) && ValidDate(g.date) && ValidTime(f) && ValidTime(g)
    requires Instant(f) == Instant(g)
    ensures f == g
  {
    TimeInDay(f);
    TimeInDay(g);
    hide DayNumber, TimeOfDay, ValidDate;
    SameDay(DayNumber(f.date), TimeOfDay(f), DayNumber(g.date), TimeOfDay(g));
    DateUnique(f.date, g.date);
    TimeUnique(f, g);
  }

  lemma TimeInDay(f: Fields)
    requires ValidTime(f)
    ensures 0 <= TimeOfDay(f) < DAY_MS
  {
  }

  lemma SameDay(a: int, x: int, b: int, y: int)
    requires 0 <= x < DAY_MS && 0 <= y < DAY_MS && a * DAY_MS + x == b * DAY_MS + y
    ensures a == b && x == y
  {
  }

  lemma TimeUnique(f: Fields, g: Fields)
    requires ValidTime(f) && ValidTime(g) && TimeOfDay(f) == TimeOfDay(g)
    ensures f.hour == g.hour && f.minute == g.minute && f.second == g.second && f.ms == g.ms
  {
  }

  // ---------- ISO texts ----------

  function Digit(n: nat): char { (48 + n % 10) as char }

  /** n in exactly k digits. */
  function Padded(n: nat, k: nat): (r: string)
    ensures |r| == k
  {
    if k == 0 then "" else Padded(n / 10, k - 1) + [Digit(n)]
  }

  predicate Printable(f: Fields) { 0 <= f.date.year <= 9999 && ValidDate(f.date) && ValidTime(f) }

  function IsoText(f: Fields): (r: string)
    requires Printable(f)
    ensures |r| == 24
  {
    Padded(f.date.year, 4) + "-" + Padded(f.date.month, 2) + "-" + Padded(f.date.day, 2) + "T"
    + Padded(f.hour, 2) + ":" + Padded(f.minute, 2) + ":" + Padded(f.second, 2) + "." + Padded(f.ms, 3) + "Z"
  }

  function Value(c: char): int { c as int - 48 }

  /** What the ISO parser reads at its fixed places; a part that is not there counts as zero. */
  function ReadFields(s: string): Fields
    requires Readable(s)
  {
    var date := if |s| < 10 then Date(0, 0, 0) else
      Date(Value(s[0]) * 1000 + Value(s[1]) * 100 + Value(s[2]) * 10 + Value(s[3]),
           Value(s[5]) * 10 + Value(s[6]), Value(s[8]) * 10 + Value(s[9]));
    var hasTime := |s| >= 13 && s[10] == 'T';
    Fields(date,
           if hasTime then Value(s[11]) * 10 + Value(s[12]) else 0,
           if hasTime then Value(s[14]) * 10 + Value(s[15]) else 0,
           if hasTime then Value(s[17]) * 10 + Value(s[18]) else 0,
           if |s| >= 20 && s[19] == '.' then Value(s[20]) * 100 + Value(s[21]) * 10 + Value(s[22]) else 0)
  }

  /** The parser stays within the text. */
  predicate Readable(s: string) {
    (|s| >= 13 && s[10] == 'T' ==> |s| >= 19) && (|s| >= 20 && s[19] == '.' ==> |s| >= 23)
  }

  lemma TwoDigits(n: int)
    requires 0 <= n <= 99
    ensures var r := Padded(n, 2); Value(r[0]) * 10 + Value(r[1]) == n
  {
    assert Padded(n / 10, 1) == [Digit(n / 10)];
  }

  lemma ThreeDigits(n: int)
    requires 0 <= n <= 999
    ensures var r := Padded(n, 3); Value(r[0]) * 100 + Value(r[1]) * 10 + Value(r[2]) == n
  {
    TwoDigits(n / 10);
    assert Padded(n, 3) == Padded(n / 10, 2) + [Digit(n)];
  }

  lemma FourDigits(n: int)
    requires 0 <= n <= 9999
    ensures var r := Padded(n, 4); Value(r[0]) * 1000 + Value(r[1]) * 100 + Value(r[2]) * 10 + Value(r[3]) == n
  {
    ThreeDigits(n / 10);
    assert Padded(n, 4) == Padded(n / 10, 3) + [Digit(n)];
  }

  /** Where each field stands in the text. */
  lemma IsoParts(f: Fields)
    requires Printable(f)
    ensures var s := IsoText(f);
      && s[0..4] == Padded(f.date.year, 4) && s[5..7] == Padded(f.date.month, 2) && s[8..10] == Padded(f.date.day, 2)
      && s[11..13] == Padded(f.hour, 2) && s[14..16] == Padded(f.minute, 2) && s[17..19] == Padded(f.second, 2)
      && s[20..23] == Padded(f.ms, 3) && s[10] == 'T' && s[19] == '.'
  {
    hide Padded, MonthDays, Leap;
  }

  lemma Slice(s: string, i: nat, n: nat)
    requires 2 <= n <= 4 && i + n <= |s|
    ensures var part := s[i..i + n];
      part[0] == s[i] && part[1] == s[i + 1] && (n > 2 ==> part[2] == s[i + 2]) && (n > 3 ==> part[3] == s[i + 3])
  {
  }

  /** Reading the text of any fields gives the fields back. */
  lemma IsoRoundTrip(f: Fields)
    requires Printable(f)
    ensures Readable(IsoText(f)) && ReadFields(IsoText(f)) == f
  {
    hide MonthDays, Leap;
    FourDigits(f.date.year);
    TwoDigits(f.date.month);
    TwoDigits(f.date.day);
    TwoDigits(f.hour);
    TwoDigits(f.minute);
    TwoDigits(f.second);
    ThreeDigits(f.ms);
    IsoParts(f);
    hide Padded, Value, IsoText, Printable;
    var s := IsoText(f);
    Slice(s, 0, 4);
    Slice(s, 5, 2);
    Slice(s, 8, 2);
    Slice(s, 11, 2);
    Slice(s, 14, 2);
    Slice(s, 17, 2);
    Slice(s, 20, 3);
    assert ReadFields(s).date == f.date;
  }

  /** The layout of the text, character by character: YYYY-MM-DDTHH:MM:SS.mmmZ. */
  lemma IsoLayout(f: Fields)
    requires Printable(f)
    ensures var s := IsoText(f);
      && s[4] == '-' && s[7] == '-' && s[10] == 'T' && s[13] == ':' && s[16] == ':' && s[19] == '.' && s[23] == 'Z'
      && f.date.year
         == (s[0] as int - 48) * 1000 + (s[1] as int - 48) * 100 + (s[2] as int - 48) * 10 + s[3] as int - 48
      && f.date.month == (s[5] as int - 48) * 10 + s[6] as int - 48
      && f.date.day == (s[8] as int - 48) * 10 + s[9] as int - 48
      && f.hour == (s[11] as int - 48) * 10 + s[12] as int - 48
      && f.minute == (s[14] as int - 48) * 10 + s[15] as int - 48
      && f.second == (s[17] as int - 48) * 10 + s[18] as int - 48
      && f.ms == (s[20] as int - 48) * 100 + (s[21] as int - 48) * 10 + s[22] as int - 48
  {
    IsoRoundTrip(f);
    Separators(f);
    hide Padded, IsoText, Printable, MonthDays, Leap;
    assert ReadFields(IsoText(f)).date == f.date;
  }

  lemma Separators(f: Fields)
    requires Printable(f)
    ensures var s := IsoText(f);
      && s[4] == '-' && s[7] == '-' && s[10] == 'T' && s[13] == ':' && s[16] == ':' && s[19] == '.' && s[23] == 'Z'
  {
    hide Padded, MonthDays, Leap;
  }
}
