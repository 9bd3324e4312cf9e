/** Dates as the page uses them: the local calendar fields a JavaScript Date
    reports, the fixed `yesterday`, the past-event rule and the M/D/YY text. */
module Calendar {
  import opened Wrappers
  import opened Strings

  const MsPerDay: int := 86_400_000

  /** A local date-time as a JavaScript Date reports it: `getFullYear()`,
      `getMonth()` (0-based), `getDate()`, and the milliseconds since local
      midnight. */
  datatype Date = Date(year: int, month: int, day: int, ms: int)

  /** The leap-year rule of the proleptic Gregorian calendar JavaScript uses. */
  predicate IsLeapYear(y: int) {
    y % 4 == 0 && (y % 100 != 0 || y % 400 == 0)
  }

  function DaysInMonth(y: int, m: int): (n: int)
    requires 0 <= m < 12
    ensures 28 <= n <= 31
    ensures n == 29 <==> m == 1 && IsLeapYear(y)
  {
    if m == 1 then (if IsLeapYear(y) then 29 else 28)
    else if m == 3 || m == 5 || m == 8 || m == 10 then 30
    else 31
  }

  predicate ValidDate(d: Date) {
    0 <= d.month < 12 && 1 <= d.day <= DaysInMonth(d.year, d.month) && 0 <= d.ms < MsPerDay
  }

  /** A JavaScript Date object: a real moment, or "Invalid Date" (time value
      NaN), which is what `new Date(Date.parse(text))` gives for text that
      Date.parse cannot read. */
  datatype JsDate = InvalidDate | Moment(date: Date)

  /** `a` falls on an earlier calendar day than `b`. */
  predicate DayBefore(a: Date, b: Date) {
    a.year < b.year || (a.year == b.year && (a.month < b.month || (a.month == b.month && a.day < b.day)))
  }

  predicate SameDay(a: Date, b: Date) {
    a.year == b.year && a.month == b.month && a.day == b.day
  }

  /** The order of time values, which `<=` on two Date objects compares. */
  predicate AtOrBefore(a: Date, b: Date) {
    DayBefore(a, b) || (SameDay(a, b) && a.ms <= b.ms)
  }

  /** `new Date(now.getFullYear(), now.getMonth(), now.getDate() - 1)`:
      midnight at the start of the day before `now`. Day 0 of a month rolls
      back to the last day of the month before, and month -1 to December of
      the year before. */
  function Yesterday(now: Date): Date
    requires ValidDate(now)
  {
    if now.day > 1 then Date(now.year, now.month, now.day - 1, 0)
    else if now.month > 0 then Date(now.year, now.month - 1, DaysInMonth(now.year, now.month - 1), 0)
    else Date(now.year - 1, 11, 31, 0)
  }

  /** Midnight at the start of the calendar day after `d`, counted forwards;
      an independent definition to check Yesterday against. */
  function NextDay(d: Date): Date
    requires ValidDate(d)
  {
    if d.day < DaysInMonth(d.year, d.month) then Date(d.year, d.month, d.day + 1, 0)
    else if d.month < 11 then Date(d.year, d.month + 1, 1, 0)
    else Date(d.year + 1, 0, 1, 0)
  }

  /** `yesterday` is a valid midnight, the day after it is today, and no valid
      calendar day lies strictly between the two. */
  lemma YesterdayIsPreviousDay(now: Date)
    requires ValidDate(now)
    ensures ValidDate(Yesterday(now)) && Yesterday(now).ms == 0
    ensures NextDay(Yesterday(now)) == Date(now.year, now.month, now.day, 0)
    ensures DayBefore(Yesterday(now), now)
    ensures forall d :: ValidDate(d) && DayBefore(d, now) ==> !DayBefore(Yesterday(now), d)
  {
    var y := Yesterday(now);
    forall d | ValidDate(d) && DayBefore(d, now) ensures !DayBefore(y, d) {
      if now.day == 1 && now.month > 0 && d.year == now.year && d.month == now.month - 1 {
        assert d.day <= DaysInMonth(now.year, now.month - 1);
      }
    }
  }

  /** `Event.prototype.pastDate`: the start date is at or before `yesterday`.
      An invalid date compares false with everything, so it is never past. */
  function PastDate(start: JsDate, yesterday: Date): (past: bool)
    ensures past ==> start.Moment?
  {
    start.Moment? && AtOrBefore(start.date, yesterday)
  }

  /** What the past-event rule means in calendar days: an event today or
      later is never past; one two or more days back always is; one on the
      day before is past only when it starts exactly at midnight. So for
      start times at midnight, past means "before today". */
  lemma PastDateRule(start: Date, now: Date)
    requires ValidDate(start) && ValidDate(now)
    ensures PastDate(Moment(start), Yesterday(now)) ==> DayBefore(start, now)
    ensures DayBefore(start, Yesterday(now)) ==> PastDate(Moment(start), Yesterday(now))
    ensures SameDay(start, Yesterday(now)) ==> (PastDate(Moment(start), Yesterday(now)) <==> start.ms == 0)
    ensures start.ms == 0 ==> (PastDate(Moment(start), Yesterday(now)) <==> DayBefore(start, now))
  {
    YesterdayIsPreviousDay(now);
  }

  /** An event dated today, at any hour, is not past. */
  lemma TodayIsNotPast(start: Date, now: Date)
    requires ValidDate(start) && ValidDate(now) && SameDay(start, now)
    ensures !PastDate(Moment(start), Yesterday(now))
  {
    PastDateRule(start, now);
  }

  /** `a % 100` as JavaScript computes it: the remainder truncated towards
      zero (Dafny's own `%` never is negative). */
  function JsRemainder100(a: int): int {
    if a >= 0 then a % 100 else -((-a) % 100)
  }

  /** The JavaScript remainder differs from `a` by a multiple of 100, is
      smaller than 100 in magnitude and takes the sign of `a`. */
  lemma JsRemainder100Rule(a: int)
    ensures (a - JsRemainder100(a)) % 100 == 0
    ensures -100 < JsRemainder100(a) < 100
    ensures a >= 0 ==> JsRemainder100(a) >= 0
    ensures a <= 0 ==> JsRemainder100(a) <= 0
  {
  }

  /** `getYear() % 100`, where `getYear()` is the full year minus 1900. */
  function TwoDigitYear(year: int): int {
    JsRemainder100(year - 1900)
  }

  /** The year part is in 0..99 from 1900 on, and is the year minus 2000
      in this century. */
  lemma TwoDigitYearRange(year: int)
    ensures year >= 1900 ==> 0 <= TwoDigitYear(year) <= 99
    ensures year < 1900 ==> -99 <= TwoDigitYear(year) <= 0
    ensures 2000 <= year < 2100 ==> TwoDigitYear(year) == year - 2000
  {
    if year >= 2000 {
      assert (year - 1900) % 100 == (year - 2000) % 100;
    }
  }

  /** `Event.prototype.dateString`: month (1-based), day and two-digit year,
      separated by "/", none of them zero-padded. An invalid date renders
      each part as NaN. */
  function DateString(d: JsDate): string {
    match d
    case InvalidDate => "NaN/NaN/NaN"
    case Moment(t) =>
      IntToDecimal(t.month + 1) + "/" + IntToDecimal(t.day) + "/" + IntToDecimal(TwoDigitYear(t.year))
  }

  /** Reads month, day and year back from a date string. */
  function ParseDateString(s: string): Option<(int, int, int)> {
    var parts := Split(s, "/");
    if |parts| != 3 then None
    else match (ParseInt(parts[0]), ParseInt(parts[1]), ParseInt(parts[2]))
      case (Some(m), Some(d), Some(y)) => Some((m, d, y))
      case _ => None
  }

  /** Three parts without "/" joined by "/" split back into those parts. */
  lemma SlashedRoundTrip(m: string, d: string, y: string)
    requires '/' !in m && '/' !in d && '/' !in y
    ensures Split(m + "/" + d + "/" + y, "/") == [m, d, y]
  {
    var parts := [m, d, y];
    assert Join(parts, "/") == m + "/" + d + "/" + y by {
      assert parts[1..] == [d, y] && [d, y][1..] == [y];
      assert Join([y], "/") == y;
      assert Join([d, y], "/") == d + "/" + y;
      assert Join(parts, "/") == m + "/" + (d + "/" + y);
    }
    SplitJoin(parts, "/");
  }

  /** Three integers written in decimal and joined by "/" split back into
      their unpadded numerals, which read back as those integers. */
  lemma NumeralsRoundTrip(a: int, b: int, c: int)
    ensures var s := IntToDecimal(a) + "/" + IntToDecimal(b) + "/" + IntToDecimal(c);
      && Split(s, "/") == [IntToDecimal(a), IntToDecimal(b), IntToDecimal(c)]
      && (forall part <- Split(s, "/") :: Unpadded(part))
      && ParseDateString(s) == Some((a, b, c))
  {
    SlashedRoundTrip(IntToDecimal(a), IntToDecimal(b), IntToDecimal(c));
    ParseIntOfDecimal(a);
    ParseIntOfDecimal(b);
    ParseIntOfDecimal(c);
  }

  /** The date string has three "/"-separated parts, each unpadded, that read
      back as the 1-based month, the day and the two-digit year. */
  lemma DateStringRoundTrip(t: Date)
    ensures |Split(DateString(Moment(t)), "/")| == 3
    ensures forall part <- Split(DateString(Moment(t)), "/") :: Unpadded(part)
    ensures ParseDateString(DateString(Moment(t))) == Some((t.month + 1, t.day, TwoDigitYear(t.year)))
  {
    var m, d, y := t.month + 1, t.day, TwoDigitYear(t.year);
    assert DateString(Moment(t)) == IntToDecimal(m) + "/" + IntToDecimal(d) + "/" + IntToDecimal(y);
    NumeralsRoundTrip(m, d, y);
  }

  /** For a valid date from 1900 on, the three parts are a month in 1..12,
      a day in 1..31 and a year in 0..99. */
  lemma DateStringRanges(t: Date)
    requires ValidDate(t) && t.year >= 1900
    ensures ParseDateString(DateString(Moment(t))).Some?
    ensures var (m, d, y) := ParseDateString(DateString(Moment(t))).value;
      1 <= m <= 12 && 1 <= d <= 31 && 0 <= y <= 99
  {
    DateStringRoundTrip(t);
    TwoDigitYearRange(t.year);
  }

  /** An invalid date renders as text no part of which reads as a number. */
  lemma InvalidDateString()
    ensures DateString(InvalidDate) == "NaN/NaN/NaN"
    ensures ParseDateString(DateString(InvalidDate)) == None
  {
    assert ParseInt("NaN") == None;
  }

  /** 5 January 2005 renders as "1/5/5", not "01/05/05". */
  lemma NoZeroPadding()
    ensures DateString(Moment(Date(2005, 0, 5, 0))) == "1/5/5"
  {
  }

  /** Before 1900 the year part is negative, as JavaScript's remainder
      makes it: 3 June 1850 renders as "6/3/-50". */
  lemma NegativeYearPart()
    ensures DateString(Moment(Date(1850, 5, 3, 0))) == "6/3/-50"
  {
    assert TwoDigitYear(1850) == -50;
    assert IntToDecimal(-50) == "-50";
  }
}
