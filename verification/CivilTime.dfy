/** Seconds since 1970 as a civil UTC date and time, without a calendar table. */
module CivilTime {
  import opened Arithmetic

  datatype Date = Date(year: int, month: int, day: int)

  datatype DateTime = DateTime(date: Date, hour: int, minute: int, second: int)

  // ---------------------------------------------------------------- the Gregorian calendar

  predicate Leap(year: int) {
    year % 4 == 0 && (year % 100 != 0 || year % 400 == 0)
  }

  function DaysInMonth(year: int, month: int): int {
    if month == 2 then if Leap(year) then 29 else 28
    else if month == 4 || month == 6 || month == 9 || month == 11 then 30
    else 31
  }

  ghost predicate ValidDate(d: Date) {
    1 <= d.month <= 12 && 1 <= d.day <= DaysInMonth(d.year, d.month)
  }

  ghost predicate Valid(t: DateTime) {
    ValidDate(t.date) && 0 <= t.hour < 24 && 0 <= t.minute < 60 && 0 <= t.second < 60
  }

  /** The day after d, as the calendar has it. */
  function NextDay(d: Date): Date {
    if d.day < DaysInMonth(d.year, d.month) then Date(d.year, d.month, d.day + 1)
    else if d.month < 12 then Date(d.year, d.month + 1, 1)
    else Date(d.year + 1, 1, 1)
  }

  /** Days from 1 January of year 1 to 1 January of `year`. */
  function DaysBeforeYear(year: int): int {
    365 * (year - 1) + (year - 1) / 4 - (year - 1) / 100 + (year - 1) / 400
  }

  function DaysBeforeMonth(year: int, month: int): int
    decreases month
  {
    if month <= 1 then 0 else DaysBeforeMonth(year, month - 1) + DaysInMonth(year, month - 1)
  }

  /** Days from 1970-01-01 to d. */
  function DayNumber(d: Date): int {
    DaysBeforeYear(d.year) + DaysBeforeMonth(d.year, d.month) + d.day - 1 - 719_162
  }

  /** Seconds from 1970-01-01T00:00:00 to t. */
  function SecondNumber(t: DateTime): int {
    86_400 * DayNumber(t.date) + 3600 * t.hour + 60 * t.minute + t.second
  }

  // ---------------------------------------------------------------- the conversion

  /** Division rounding toward zero. */
  function Quotient(a: int, b: int): int
    requires b > 0
  {
    if a >= 0 then a / b else -(-a / b)
  }

  function Era(z: int): int {
    Quotient(if z >= 0 then z else z - 146_096, 146_097)
  }

  function YearOfEra(doe: int): int {
    (doe - doe / 1_460 + doe / 36_524 - doe / 146_096) / 365
  }

  function DayOfYear(doe: int, yoe: int): int {
    doe - (365 * yoe + yoe / 4 - yoe / 100)
  }

  /** The date `days` after 1970-01-01. */
  function CivilDate(days: int): Date {
    var z := days + 719_468;
    var era := Era(z);
    DateOfEra(era, z - era * 146_097)
  }

  /** Day doe, from 0, of the 400-year era that starts on 1 March of 400 * era. */
  function DateOfEra(era: int, doe: int): Date {
    var yoe := YearOfEra(doe);
    DateOfYear(yoe + era * 400, DayOfYear(doe, yoe))
  }

  function MonthAfterFebruary(mp: int): int {
    if mp < 10 then mp + 3 else mp - 9
  }

  function YearOfMonth(y: int, mp: int): int {
    y + if MonthAfterFebruary(mp) <= 2 then 1 else 0
  }

  /** Day doy, from 0, of the year that starts on 1 March of y. */
  function DateOfYear(y: int, doy: int): Date {
    var mp := (5 * doy + 2) / 153;
    var d := doy - (153 * mp + 2) / 5 + 1;
    Date(YearOfMonth(y, mp), MonthAfterFebruary(mp), d)
  }

  function CivilTimeOf(secs: int): DateTime {
    var s := secs % 86_400;
    var days := secs / 86_400;
    var h, rem := s / 3600, s % 3600;
    var m, sec := rem / 60, rem % 60;
    DateTime(CivilDate(days), h, m, sec)
  }

  // ---------------------------------------------------------------- the conversion is the calendar

  lemma EraIsFloor(z: int)
    ensures Era(z) == z / 146_097
    ensures 0 <= z - Era(z) * 146_097 < 146_097
  {
  }

  /** Day doe of an era lies in century C, in four-year cycle q of the century, on day t of the cycle;
      years start in March, so leap days come last. */
  lemma EraDay(doe: int) returns (C: int, q: int, t: int)
    requires 0 <= doe < 146_097
    ensures 0 <= C <= 3 && 0 <= q <= 24 && 0 <= t <= 1_460 && (q == 24 && t == 1_460 ==> C == 3)
    ensures doe == 36_524 * C + 1_461 * q + t
  {
    C := if doe / 36_524 == 4 then 3 else doe / 36_524;
    var r := doe - 36_524 * C;
    q := r / 1_461;
    t := r % 1_461;
  }

  function YearOfCycle(t: int): int {
    if t / 365 > 3 then 3 else t / 365
  }

  /** 1 once the days of the cycles before add up to one more divisor of the formula. */
  function Late(C: int, q: int, t: int): int {
    if 24 * C + q + t >= 1_460 then 1 else 0
  }

  lemma LeapDaysOfCycles(C: int, q: int, t: int)
    requires 0 <= C <= 3 && 0 <= q <= 24 && 0 <= t <= 1_460
    ensures (36_524 * C + 1_461 * q + t) / 1_460 == 25 * C + q + Late(C, q, t)
  {
    DivModUnique(36_524 * C + 1_461 * q + t, 1_460, 25 * C + q + Late(C, q, t), 24 * C + q + t - 1_460 * Late(C, q, t));
  }

  lemma LeapDaysOfCenturies(C: int, q: int, t: int)
    requires 0 <= C <= 3 && 0 <= q <= 24 && 0 <= t <= 1_460 && (q == 24 && t == 1_460 ==> C == 3)
    ensures (36_524 * C + 1_461 * q + t) / 36_524 - (36_524 * C + 1_461 * q + t) / 146_096 == C
  {
  }

  /** The correction terms of the formula cancel the leap days exactly. */
  lemma YearFormula(C: int, q: int, t: int)
    requires 0 <= C <= 3 && 0 <= q <= 24 && 0 <= t <= 1_460 && (q == 24 && t == 1_460 ==> C == 3)
    ensures YearOfEra(36_524 * C + 1_461 * q + t) == 100 * C + 4 * q + YearOfCycle(t)
  {
    var doe, w := 36_524 * C + 1_461 * q + t, YearOfCycle(t);
    LeapDaysOfCycles(C, q, t);
    LeapDaysOfCenturies(C, q, t);
    DayOfCycle(C, q, t);
    DivModUnique(doe - doe / 1_460 + doe / 36_524 - doe / 146_096, 365, 100 * C + 4 * q + w, t - 365 * w - Late(C, q, t));
  }

  lemma DayOfCycle(C: int, q: int, t: int)
    requires 0 <= C <= 3 && 0 <= q <= 24 && 0 <= t <= 1_460
    ensures 0 <= t - 365 * YearOfCycle(t) - Late(C, q, t) < 365
  {
  }

  /** The leap day ends a four-year cycle; a century's last cycle has one only at the end of the era. */
  lemma LeapAtCycleEnd(C: int, q: int)
    requires 0 <= C <= 3 && 0 <= q <= 24 && (q == 24 ==> C == 3)
    ensures Leap(100 * C + 4 * q + 4)
  {
    var year := 100 * C + 4 * (q + 1);
    assert year % 4 == 0;
    if q < 24 {
      assert year % 100 == 4 * (q + 1);
    }
  }

  lemma YearOfEraIsRight(doe: int)
    requires 0 <= doe < 146_097
    ensures 0 <= YearOfEra(doe) < 400
    ensures 0 <= DayOfYear(doe, YearOfEra(doe)) <= if Leap(YearOfEra(doe) + 1) then 365 else 364
  {
    var C, q, t := EraDay(doe);
    YearFormula(C, q, t);
    hide YearOfEra, Leap;
    var yoe, w := YearOfEra(doe), YearOfCycle(t);
    assert yoe / 4 == 25 * C + q && yoe / 100 == C;
    assert DayOfYear(doe, yoe) == t - 365 * w;
    if t == 1_460 {
      LeapAtCycleEnd(C, q);
    }
  }

  lemma MonthOfYear(doy: int)
    requires 0 <= doy <= 365
    ensures var mp := (5 * doy + 2) / 153;
      0 <= mp < 12 && (153 * mp + 2) / 5 <= doy < (153 * (mp + 1) + 2) / 5
  {
  }

  /** Whole eras come out of the calendar's divisions. */
  lemma ErasDivideOut(yoe: int, era: int)
    requires 0 <= yoe < 400
    ensures (yoe + era * 400) / 4 == yoe / 4 + 100 * era
    ensures (yoe + era * 400) / 100 == yoe / 100 + 4 * era
    ensures (yoe + era * 400) / 400 == era
  {
  }

  lemma MarchFirst(era: int, yoe: int)
    requires 0 <= yoe < 400
    ensures DaysBeforeYear(yoe + era * 400 + 1) == 146_097 * era + 365 * yoe + yoe / 4 - yoe / 100
  {
    ErasDivideOut(yoe, era);
  }

  lemma Mod4Repeats(b: int, era: int)
    ensures (b + era * 400) % 4 == b % 4
  {
    var n, q := b + era * 400, b / 4 + 100 * era;
    assert n == 4 * q + b % 4;
  }

  lemma Mod100Repeats(b: int, era: int)
    ensures (b + era * 400) % 100 == b % 100
  {
    var n, q := b + era * 400, b / 100 + 4 * era;
    assert n == 100 * q + b % 100;
  }

  lemma Mod400Repeats(b: int, era: int)
    ensures (b + era * 400) % 400 == b % 400
  {
    var n, q := b + era * 400, b / 400 + era;
    assert n == 400 * q + b % 400;
  }

  lemma LeapRepeats(yoe: int, era: int)
    ensures Leap(yoe + era * 400 + 1) == Leap(yoe + 1)
  {
    var b := yoe + 1;
    Mod4Repeats(b, era);
    Mod100Repeats(b, era);
    Mod400Repeats(b, era);
    assert yoe + era * 400 + 1 == b + era * 400;
  }

  /** Days from 1 March to the first of each month, against the table of month lengths. */
  lemma MonthOffsets(y: int, mp: int)
    requires 0 <= mp < 12
    ensures DaysBeforeYear(YearOfMonth(y, mp)) + DaysBeforeMonth(YearOfMonth(y, mp), MonthAfterFebruary(mp))
         == DaysBeforeYear(y + 1) - 306 + (153 * mp + 2) / 5
  {
    if mp < 10 {
      YearLength(y);
      MonthTable(y);
    } else {
      MonthTable(y + 1);
    }
  }

  lemma MonthLengths(y: int, mp: int)
    requires 0 <= mp < 12
    ensures DaysInMonth(YearOfMonth(y, mp), MonthAfterFebruary(mp))
         == if mp == 11 then if Leap(y + 1) then 29 else 28 else (153 * (mp + 1) + 2) / 5 - (153 * mp + 2) / 5
  {
  }

  lemma YearLength(y: int)
    ensures DaysBeforeYear(y + 1) == DaysBeforeYear(y) + if Leap(y) then 366 else 365
  {
    FourYears(y);
    HundredYears(y);
    FourHundredYears(y);
    DivisibleBy(y);
  }

  lemma FourYears(y: int)
    ensures y / 4 - (y - 1) / 4 == if y % 4 == 0 then 1 else 0
  {
  }

  lemma HundredYears(y: int)
    ensures y / 100 - (y - 1) / 100 == if y % 100 == 0 then 1 else 0
  {
  }

  lemma FourHundredYears(y: int)
    ensures y / 400 - (y - 1) / 400 == if y % 400 == 0 then 1 else 0
  {
  }

  lemma DivisibleBy(y: int)
    ensures y % 400 == 0 ==> y % 100 == 0
    ensures y % 100 == 0 ==> y % 4 == 0
  {
  }

  lemma MonthTable(year: int)
    ensures var l := if Leap(year) then 1 else 0;
      && DaysBeforeMonth(year, 1) == 0 && DaysBeforeMonth(year, 2) == 31 && DaysBeforeMonth(year, 3) == 59 + l
      && DaysBeforeMonth(year, 4) == 90 + l && DaysBeforeMonth(year, 5) == 120 + l && DaysBeforeMonth(year, 6) == 151 + l
      && DaysBeforeMonth(year, 7) == 181 + l && DaysBeforeMonth(year, 8) == 212 + l && DaysBeforeMonth(year, 9) == 243 + l
      && DaysBeforeMonth(year, 10) == 273 + l && DaysBeforeMonth(year, 11) == 304 + l && DaysBeforeMonth(year, 12) == 334 + l
  {
    assert DaysBeforeMonth(year, 3) == DaysBeforeMonth(year, 2) + DaysInMonth(year, 2);
    assert DaysBeforeMonth(year, 5) == DaysBeforeMonth(year, 4) + 30;
    assert DaysBeforeMonth(year, 7) == DaysBeforeMonth(year, 6) + 30;
    assert DaysBeforeMonth(year, 9) == DaysBeforeMonth(year, 8) + 31;
    assert DaysBeforeMonth(year, 11) == DaysBeforeMonth(year, 10) + 31;
  }

  lemma DateOfYearIsRight(y: int, doy: int)
    requires 0 <= doy <= if Leap(y + 1) then 365 else 364
    ensures ValidDate(DateOfYear(y, doy))
    ensures DayNumber(DateOfYear(y, doy)) == DaysBeforeYear(y + 1) - 719_468 + doy
  {
    MonthOfYear(doy);
    MonthOffsets(y, (5 * doy + 2) / 153);
    MonthLengths(y, (5 * doy + 2) / 153);
  }

  /** The years before add up: y is the year that day doe falls in. */
  lemma YearStarts(era: int, doe: int, yoe: int)
    requires 0 <= yoe < 400
    ensures DaysBeforeYear(yoe + era * 400 + 1) + DayOfYear(doe, yoe) == era * 146_097 + doe
  {
    MarchFirst(era, yoe);
  }

  lemma DateInEraIsRight(era: int, doe: int, yoe: int)
    requires 0 <= yoe < 400 && 0 <= DayOfYear(doe, yoe) <= if Leap(yoe + 1) then 365 else 364
    ensures ValidDate(DateOfYear(yoe + era * 400, DayOfYear(doe, yoe)))
    ensures DayNumber(DateOfYear(yoe + era * 400, DayOfYear(doe, yoe))) == era * 146_097 + doe - 719_468
  {
    hide DateOfYear, DayNumber, ValidDate, Leap, DayOfYear, DaysBeforeYear;
    LeapRepeats(yoe, era);
    DateOfYearIsRight(yoe + era * 400, DayOfYear(doe, yoe));
    YearStarts(era, doe, yoe);
  }

  lemma DateOfEraIsRight(era: int, doe: int)
    requires 0 <= doe < 146_097
    ensures ValidDate(DateOfEra(era, doe))
    ensures DayNumber(DateOfEra(era, doe)) == era * 146_097 + doe - 719_468
  {
    hide YearOfEra, DayOfYear, DateOfYear, DayNumber;
    YearOfEraIsRight(doe);
    DateInEraIsRight(era, doe, YearOfEra(doe));
  }

  /** For every day count: the date exists, and counting its days gives the count back. */
  lemma CivilDateRoundTrip(days: int)
    ensures ValidDate(CivilDate(days)) && DayNumber(CivilDate(days)) == days
  {
    hide DateOfEra, DayNumber;
    var z := days + 719_468;
    EraIsFloor(z);
    DateOfEraIsRight(Era(z), z - Era(z) * 146_097);
  }

  // ---------------------------------------------------------------- order

  ghost predicate DateBefore(a: Date, b: Date) {
    a.year < b.year || (a.year == b.year && (a.month < b.month || (a.month == b.month && a.day < b.day)))
  }

  ghost predicate Before(a: DateTime, b: DateTime) {
    || DateBefore(a.date, b.date)
    || (a.date == b.date
        && (a.hour < b.hour || (a.hour == b.hour && (a.minute < b.minute || (a.minute == b.minute && a.second < b.second)))))
  }

  lemma {:induction false} LaterMonth(year: int, m: int, n: int)
    requires 1 <= m < n
    ensures DaysBeforeMonth(year, m) + DaysInMonth(year, m) <= DaysBeforeMonth(year, n)
    decreases n
  {
    if m + 1 < n {
      LaterMonth(year, m, n - 1);
    }
  }

  lemma {:induction false} LaterYear(y: int, x: int)
    requires y < x
    ensures DaysBeforeYear(y + 1) <= DaysBeforeYear(x)
    decreases x - y
  {
    if y + 1 < x {
      LaterYear(y, x - 1);
      YearLength(x - 1);
    }
  }

  /** A date lies within its year. */
  lemma WithinYear(d: Date)
    requires ValidDate(d)
    ensures 1 <= DaysBeforeMonth(d.year, d.month) + d.day
    ensures DaysBeforeYear(d.year) + DaysBeforeMonth(d.year, d.month) + d.day <= DaysBeforeYear(d.year + 1)
  {
    YearLength(d.year);
    MonthTable(d.year);
  }

  /** Counting days is strictly increasing in the calendar order. */
  lemma DayNumberIncreases(a: Date, b: Date)
    requires ValidDate(a) && ValidDate(b)
    ensures DateBefore(a, b) <==> DayNumber(a) < DayNumber(b)
    ensures a == b <==> DayNumber(a) == DayNumber(b)
  {
    if a.year == b.year {
      if a.month < b.month {
        LaterMonth(a.year, a.month, b.month);
      } else if b.month < a.month {
        LaterMonth(a.year, b.month, a.month);
      }
    } else {
      WithinYear(a);
      WithinYear(b);
      if a.year < b.year {
        LaterYear(a.year, b.year);
      } else {
        LaterYear(b.year, a.year);
      }
    }
  }

  lemma EpochIsDayZero()
    ensures CivilDate(0) == Date(1970, 1, 1)
  {
    CivilDateRoundTrip(0);
    FirstDay(CivilDate(0));
  }

  lemma FirstDay(d: Date)
    requires ValidDate(d) && DayNumber(d) == 0
    ensures d == Date(1970, 1, 1)
  {
    assert DaysBeforeMonth(1970, 1) == 0 && DaysBeforeYear(1970) == 719_162;
    DayNumberIncreases(d, Date(1970, 1, 1));
  }

  /** Consecutive days get consecutive dates: the formula agrees with the calendar everywhere. */
  lemma CivilDateFollowsCalendar(days: int)
    ensures CivilDate(days + 1) == NextDay(CivilDate(days))
  {
    CivilDateRoundTrip(days);
    CivilDateRoundTrip(days + 1);
    var d := CivilDate(days);
    NextDayIsNext(d);
    DayNumberIncreases(CivilDate(days + 1), NextDay(d));
  }

  lemma NextDayIsNext(d: Date)
    requires ValidDate(d)
    ensures ValidDate(NextDay(d)) && DayNumber(NextDay(d)) == DayNumber(d) + 1
  {
    if d.day == DaysInMonth(d.year, d.month) && d.month == 12 {
      YearLength(d.year);
      MonthTable(d.year);
    }
  }

  /** For every instant: a valid date and time that counts back to the same seconds. */
  lemma RoundTrip(secs: int)
    ensures Valid(CivilTimeOf(secs)) && SecondNumber(CivilTimeOf(secs)) == secs
  {
    CivilDateRoundTrip(secs / 86_400);
  }

  /** Later instants get later dates and times. */
  lemma StrictlyIncreasing(a: int, b: int)
    requires a < b
    ensures Before(CivilTimeOf(a), CivilTimeOf(b))
  {
    RoundTrip(a);
    RoundTrip(b);
    DayNumberIncreases(CivilTimeOf(a).date, CivilTimeOf(b).date);
  }

  lemma ClockDigits(days: int, hour: int, minute: int, second: int)
    requires 0 <= hour < 24 && 0 <= minute < 60 && 0 <= second < 60
    ensures var secs, rest := 86_400 * days + 3600 * hour + 60 * minute + second, 3600 * hour + 60 * minute + second;
      && secs / 86_400 == days && secs % 86_400 == rest
      && rest / 3600 == hour && rest % 3600 / 60 == minute && rest % 3600 % 60 == second
  {
    var rest := 3600 * hour + 60 * minute + second;
    DivModUnique(86_400 * days + rest, 86_400, days, rest);
    DivModUnique(rest, 3600, hour, 60 * minute + second);
    DivModUnique(60 * minute + second, 60, minute, second);
  }

  /** Every valid date and time is the one of its own second: nothing is skipped. */
  lemma EveryTimeIsReached(t: DateTime)
    requires Valid(t)
    ensures CivilTimeOf(SecondNumber(t)) == t
  {
    hide CivilDate, DayNumber, ValidDate, DateBefore;
    ClockDigits(DayNumber(t.date), t.hour, t.minute, t.second);
    CivilDateRoundTrip(DayNumber(t.date));
    DayNumberIncreases(CivilDate(DayNumber(t.date)), t.date);
  }

  // ---------------------------------------------------------------- machine integers

  predicate FitsI64(x: int) {
    -0x8000_0000_0000_0000 <= x < 0x8000_0000_0000_0000
  }

  /** Every value computed on the way to the clock and the era, operands included. */
  function EraIntermediates(secs: int): seq<int> {
    var s, days := secs % 86_400, secs / 86_400;
    var z := days + 719_468;
    var dividend := if z >= 0 then z else z - 146_096;
    [s, days, s / 3600, s % 3600, s % 3600 / 60, s % 3600 % 60, z, dividend, Era(z), Era(z) * 146_097, z - Era(z) * 146_097]
  }

  /** Every value computed on the way to the year and the day of the year, operands included. */
  function YearIntermediates(era: int, doe: int): seq<int> {
    var yoe := YearOfEra(doe);
    [doe - doe / 1_460, doe - doe / 1_460 + doe / 36_524, doe - doe / 1_460 + doe / 36_524 - doe / 146_096, yoe,
     era * 400, yoe + era * 400, yoe + era * 400 + 1,
     365 * yoe, 365 * yoe + yoe / 4, 365 * yoe + yoe / 4 - yoe / 100, DayOfYear(doe, yoe)]
  }

  /** Every value computed on the way to the month and the day, operands included. */
  function DayIntermediates(doy: int): seq<int> {
    var mp := (5 * doy + 2) / 153;
    [5 * doy, 5 * doy + 2, mp, 153 * mp, 153 * mp + 2, doy - (153 * mp + 2) / 5, doy - (153 * mp + 2) / 5 + 1, mp + 3, mp - 9]
  }

  ghost predicate AllFit(xs: seq<int>) {
    forall k :: 0 <= k < |xs| ==> FitsI64(xs[k])
  }

  function DayOfEra(z: int): int {
    z - Era(z) * 146_097
  }

  /** No 64-bit input overflows anywhere in the conversion. */
  lemma NoOverflow(secs: int, z: int)
    requires FitsI64(secs) && z == secs / 86_400 + 719_468
    ensures AllFit(EraIntermediates(secs))
    ensures AllFit(YearIntermediates(Era(z), DayOfEra(z)))
    ensures AllFit(DayIntermediates(DayOfYear(DayOfEra(z), YearOfEra(DayOfEra(z)))))
  {
    EraFits(secs, z);
    YearOfEraIsRight(DayOfEra(z));
    YearFits(Era(z), DayOfEra(z));
    DayFits(DayOfYear(DayOfEra(z), YearOfEra(DayOfEra(z))));
  }

  lemma EraFits(secs: int, z: int)
    requires FitsI64(secs) && z == secs / 86_400 + 719_468
    ensures AllFit(EraIntermediates(secs))
    ensures -0x1_0000_0000_0000 <= Era(z) <= 0x1_0000_0000_0000 && 0 <= DayOfEra(z) < 146_097
  {
    EraIsFloor(z);
    assert -0x1_0000_0000_0000 <= z <= 0x1_0000_0000_0000;
  }

  lemma YearFits(era: int, doe: int)
    requires -0x1_0000_0000_0000 <= era <= 0x1_0000_0000_0000 && 0 <= doe < 146_097
    ensures AllFit(YearIntermediates(era, doe))
  {
    YearOfEraIsRight(doe);
  }

  lemma DayFits(doy: int)
    requires 0 <= doy <= 365
    ensures AllFit(DayIntermediates(doy))
  {
    MonthOfYear(doy);
  }

  // ---------------------------------------------------------------- the text form

  function Digit(n: int): char
    requires 0 <= n < 10
  {
    "0123456789"[n]
  }

  /** Decimal digits without leading zeros. */
  function Digits(n: nat): string {
    if n < 10 then [Digit(n)] else Digits(n / 10) + [Digit(n % 10)]
  }

  function Zeros(n: nat): (s: string)
    ensures |s| == n
  {
    if n == 0 then "" else Zeros(n - 1) + "0"
  }

  /** A number zero-padded to a width that counts the sign. */
  function Padded(n: int, width: nat): string {
    var sign := if n < 0 then "-" else "";
    var body := Digits(if n < 0 then -n else n);
    var missing := width - |sign| - |body|;
    sign + Zeros(if missing < 0 then 0 else missing) + body
  }

  function Format(t: DateTime): string {
    Padded(t.date.year, 4) + ("-" + (Padded(t.date.month, 2) + ("-" + (Padded(t.date.day, 2) + ("T"
    + (Padded(t.hour, 2) + (":" + (Padded(t.minute, 2) + (":" + (Padded(t.second, 2) + "Z"))))))))))
  }

  function FormatUnixUtc(secs: int): string {
    Format(CivilTimeOf(secs))
  }

  /** The last `width` decimal digits. */
  function Fixed(n: nat, width: nat): (s: string)
    ensures |s| == width
  {
    if width == 0 then "" else Fixed(n / 10, width - 1) + [Digit(n % 10)]
  }

  function Pow10(width: nat): nat {
    if width == 0 then 1 else 10 * Pow10(width - 1)
  }

  lemma {:induction false} FixedZero(width: nat)
    ensures Fixed(0, width) == Zeros(width)
  {
    if width != 0 {
      FixedZero(width - 1);
    }
  }

  lemma TenthFits(n: nat, width: nat)
    requires 0 < n < Pow10(width)
    ensures width >= 1 && n / 10 < Pow10(width - 1)
    ensures n >= 10 ==> width >= 2
  {
  }

  lemma {:induction false} FixedIsZerosAndDigits(n: nat, width: nat)
    requires n < Pow10(width) && width >= 1
    ensures |Digits(n)| <= width && Fixed(n, width) == Zeros(width - |Digits(n)|) + Digits(n)
    decreases width
  {
    hide Pow10, Digit;
    if n < 10 {
      FixedZero(width - 1);
    } else {
      TenthFits(n, width);
      FixedIsZerosAndDigits(n / 10, width - 1);
      var zeros := Zeros(width - |Digits(n)|);
      assert zeros + (Digits(n / 10) + [Digit(n % 10)]) == zeros + Digits(n / 10) + [Digit(n % 10)];
    }
  }

  /** A number that fits its width is written with exactly that many digits. */
  lemma PaddedIsFixed(n: nat, width: nat)
    requires n < Pow10(width) && width >= 1
    ensures Padded(n, width) == Fixed(n, width)
  {
    FixedIsZerosAndDigits(n, width);
  }

  /** Alphabetical order, on the first position that differs. */
  ghost predicate SortsBefore(a: string, b: string) {
    exists k :: 0 <= k < |a| && k < |b| && a[..k] == b[..k] && a[k] < b[k]
  }

  lemma SortsBeforeAppend(a: string, b: string, x: string, y: string)
    requires SortsBefore(a, b)
    ensures SortsBefore(a + x, b + y)
  {
    var k :| 0 <= k < |a| && k < |b| && a[..k] == b[..k] && a[k] < b[k];
    assert (a + x)[..k] == a[..k] && (b + y)[..k] == b[..k];
    assert (a + x)[k] < (b + y)[k];
  }

  lemma SortsBeforePrepend(p: string, a: string, b: string)
    requires SortsBefore(a, b)
    ensures SortsBefore(p + a, p + b)
  {
    var k :| 0 <= k < |a| && k < |b| && a[..k] == b[..k] && a[k] < b[k];
    var l := |p| + k;
    assert (p + a)[..l] == p + a[..k] && (p + b)[..l] == p + b[..k];
    assert (p + a)[l] < (p + b)[l];
  }

  /** The leading digits decide; if they agree, the last digit does. */
  lemma DigitByDigit(m: nat, n: nat)
    requires m < n
    ensures m / 10 < n / 10 || (m / 10 == n / 10 && m % 10 < n % 10)
  {
  }

  lemma {:induction false} FixedSorts(m: nat, n: nat, width: nat)
    requires m < n < Pow10(width)
    ensures SortsBefore(Fixed(m, width), Fixed(n, width))
  {
    hide Pow10, SortsBefore, Digit;
    TenthFits(n, width);
    DigitByDigit(m, n);
    if m / 10 < n / 10 {
      FixedSorts(m / 10, n / 10, width - 1);
      SortsBeforeAppend(Fixed(m / 10, width - 1), Fixed(n / 10, width - 1), [Digit(m % 10)], [Digit(n % 10)]);
    } else {
      DigitSorts(m % 10, n % 10);
      SortsBeforePrepend(Fixed(m / 10, width - 1), [Digit(m % 10)], [Digit(n % 10)]);
    }
  }

  lemma DigitSorts(m: int, n: int)
    requires 0 <= m < n < 10
    ensures SortsBefore([Digit(m)], [Digit(n)])
  {
    var a, b := [Digit(m)], [Digit(n)];
    assert a[..0] == b[..0] && a[0] < b[0];
  }

  ghost predicate FourDigitYear(t: DateTime) {
    0 <= t.date.year <= 9999
  }

  /** One field and what follows it: the field decides, or what follows does. */
  lemma FieldSorts(m: nat, n: nat, width: nat, x: string, y: string)
    requires m < Pow10(width) && n < Pow10(width)
    requires m < n || (m == n && SortsBefore(x, y))
    ensures SortsBefore(Fixed(m, width) + x, Fixed(n, width) + y)
  {
    if m < n {
      FixedSorts(m, n, width);
      SortsBeforeAppend(Fixed(m, width), Fixed(n, width), x, y);
    } else {
      SortsBeforePrepend(Fixed(m, width), x, y);
    }
  }

  ghost function ClockText(t: DateTime): string
    requires Valid(t)
  {
    Fixed(t.hour, 2) + (":" + (Fixed(t.minute, 2) + (":" + (Fixed(t.second, 2) + "Z"))))
  }

  ghost function DateText(d: Date, rest: string): string
    requires ValidDate(d) && 0 <= d.year
  {
    Fixed(d.year, 4) + ("-" + (Fixed(d.month, 2) + ("-" + (Fixed(d.day, 2) + ("T" + rest)))))
  }

  lemma ClockSorts(a: DateTime, b: DateTime)
    requires Valid(a) && Valid(b) && a.date == b.date && Before(a, b)
    ensures SortsBefore(ClockText(a), ClockText(b))
  {
    assert Pow10(2) == 100;
    if a.hour == b.hour {
      if a.minute == b.minute {
        FieldSorts(a.second, b.second, 2, "Z", "Z");
        SortsBeforePrepend(":", Fixed(a.second, 2) + "Z", Fixed(b.second, 2) + "Z");
      }
      var x, y := ":" + (Fixed(a.second, 2) + "Z"), ":" + (Fixed(b.second, 2) + "Z");
      FieldSorts(a.minute, b.minute, 2, x, y);
      SortsBeforePrepend(":", Fixed(a.minute, 2) + x, Fixed(b.minute, 2) + y);
    }
    FieldSorts(a.hour, b.hour, 2, ":" + (Fixed(a.minute, 2) + (":" + (Fixed(a.second, 2) + "Z"))),
                                  ":" + (Fixed(b.minute, 2) + (":" + (Fixed(b.second, 2) + "Z"))));
  }

  lemma DateSorts(a: Date, b: Date, x: string, y: string)
    requires ValidDate(a) && ValidDate(b) && 0 <= a.year <= 9999 && 0 <= b.year <= 9999
    requires DateBefore(a, b) || (a == b && SortsBefore(x, y))
    ensures SortsBefore(DateText(a, x), DateText(b, y))
  {
    assert Pow10(4) == 10000 && Pow10(2) == 100;
    if a == b {
      SortsBeforePrepend("T", x, y);
    }
    if a.year == b.year {
      if a.month == b.month {
        FieldSorts(a.day, b.day, 2, "T" + x, "T" + y);
        SortsBeforePrepend("-", Fixed(a.day, 2) + ("T" + x), Fixed(b.day, 2) + ("T" + y));
      }
      var v, w := "-" + (Fixed(a.day, 2) + ("T" + x)), "-" + (Fixed(b.day, 2) + ("T" + y));
      FieldSorts(a.month, b.month, 2, v, w);
      SortsBeforePrepend("-", Fixed(a.month, 2) + v, Fixed(b.month, 2) + w);
    }
    FieldSorts(a.year, b.year, 4, "-" + (Fixed(a.month, 2) + ("-" + (Fixed(a.day, 2) + ("T" + x)))),
                                  "-" + (Fixed(b.month, 2) + ("-" + (Fixed(b.day, 2) + ("T" + y)))));
  }

  /** The date-time of section 5.6 of RFC 3339: digits and separators at fixed positions. */
  lemma FormatShape(t: DateTime)
    requires Valid(t) && FourDigitYear(t)
    ensures Format(t) == DateText(t.date, ClockText(t)) && |Format(t)| == 20
  {
    assert Pow10(4) == 10000 && Pow10(2) == 100;
    PaddedIsFixed(t.date.year, 4);
    PaddedIsFixed(t.date.month, 2);
    PaddedIsFixed(t.date.day, 2);
    PaddedIsFixed(t.hour, 2);
    PaddedIsFixed(t.minute, 2);
    PaddedIsFixed(t.second, 2);
  }

  /** Four-digit-year texts sort as their instants do (section 5.1 of RFC 3339), so they also differ. */
  lemma TextsSortAsInstants(a: int, b: int)
    requires FourDigitYear(CivilTimeOf(a)) && FourDigitYear(CivilTimeOf(b))
    ensures a < b <==> SortsBefore(FormatUnixUtc(a), FormatUnixUtc(b))
  {
    RoundTrip(a);
    RoundTrip(b);
    if a < b {
      EarlierSortsFirst(a, b);
    } else if b < a {
      EarlierSortsFirst(b, a);
    }
  }

  lemma EarlierSortsFirst(a: int, b: int)
    requires a < b && FourDigitYear(CivilTimeOf(a)) && FourDigitYear(CivilTimeOf(b))
    ensures SortsBefore(FormatUnixUtc(a), FormatUnixUtc(b)) && !SortsBefore(FormatUnixUtc(b), FormatUnixUtc(a))
  {
    var s, t := CivilTimeOf(a), CivilTimeOf(b);
    RoundTrip(a);
    RoundTrip(b);
    StrictlyIncreasing(a, b);
    FormatShape(s);
    FormatShape(t);
    if s.date == t.date {
      ClockSorts(s, t);
    }
    DateSorts(s.date, t.date, ClockText(s), ClockText(t));
    SortsBeforeIsAsymmetric(Format(s), Format(t));
  }

  lemma SortsBeforeIsAsymmetric(a: string, b: string)
    requires SortsBefore(a, b)
    ensures !SortsBefore(b, a)
  {
    var k :| 0 <= k < |a| && k < |b| && a[..k] == b[..k] && a[k] < b[k];
    forall l | k < l && l < |a| && l < |b| ensures a[..l] != b[..l] {
      assert a[..l][k] != b[..l][k];
    }
    forall l | 0 <= l < k ensures a[l] == b[l] {
      assert a[..k][l] == b[..k][l];
    }
  }

  // ---------------------------------------------------------------- reading the text

  ghost predicate AllDigits(text: string) {
    forall k :: 0 <= k < |text| ==> '0' <= text[k] <= '9'
  }

  /** The decimal value of a text of digits. */
  function ReadNumber(text: string): int {
    if text == [] then 0 else 10 * ReadNumber(text[..|text| - 1]) + (text[|text| - 1] as int - '0' as int)
  }

  function ReadSigned(text: string): int {
    if text != [] && text[0] == '-' then -ReadNumber(text[1..]) else ReadNumber(text)
  }

  /** The two characters from position k on. */
  function TwoAt(text: string, k: int): string
    requires 0 <= k && k + 2 <= |text|
  {
    text[k..k + 2]
  }

  /** The last 16 characters hold the separators and the two-digit fields; what comes before is the year. */
  function ReadTime(text: string): DateTime
    requires |text| >= 16
  {
    var n := |text| - 16;
    DateTime(Date(ReadSigned(text[..n]), ReadNumber(TwoAt(text, n + 1)), ReadNumber(TwoAt(text, n + 4))),
             ReadNumber(TwoAt(text, n + 7)), ReadNumber(TwoAt(text, n + 10)), ReadNumber(TwoAt(text, n + 13)))
  }

  lemma DigitValue(n: int)
    requires 0 <= n < 10
    ensures '0' <= Digit(n) <= '9' && Digit(n) as int - '0' as int == n
  {
  }

  lemma ReadSnoc(text: string, c: char)
    ensures ReadNumber(text + [c]) == 10 * ReadNumber(text) + (c as int - '0' as int)
  {
    assert (text + [c])[..|text|] == text;
  }

  lemma {:induction false} DigitsReadBack(n: nat)
    ensures Digits(n) != [] && AllDigits(Digits(n)) && ReadNumber(Digits(n)) == n
    ensures n > 0 ==> Digits(n)[0] != '0'
  {
    hide Digit, ReadNumber;
    DigitValue(n % 10);
    if n < 10 {
      ReadSnoc([], Digit(n));
      assert [] + [Digit(n)] == Digits(n);
      ReadNothing();
    } else {
      DigitsReadBack(n / 10);
      ReadSnoc(Digits(n / 10), Digit(n % 10));
    }
  }

  lemma ReadNothing()
    ensures ReadNumber([]) == 0
  {
  }

  lemma {:induction false} ZerosReadAsNothing(zeros: nat, text: string)
    ensures AllDigits(text) ==> AllDigits(Zeros(zeros) + text)
    ensures ReadNumber(Zeros(zeros) + text) == ReadNumber(text)
  {
    if zeros != 0 {
      assert Zeros(zeros) + text == Zeros(zeros - 1) + ("0" + text);
      ZerosReadAsNothing(zeros - 1, "0" + text);
      LeadingZero(text);
    } else {
      assert Zeros(0) + text == text;
    }
  }

  lemma {:induction false} LeadingZero(text: string)
    ensures ReadNumber("0" + text) == ReadNumber(text)
  {
    if text == [] {
      assert "0" + text == [] + ['0'];
      ReadSnoc([], '0');
    } else {
      var k := |text| - 1;
      LeadingZero(text[..k]);
      assert "0" + text == ("0" + text[..k]) + [text[k]];
      ReadSnoc("0" + text[..k], text[k]);
    }
  }

  /** Digits behind as many zeros as are missing. */
  function Filled(n: nat, width: int): string {
    var missing := width - |Digits(n)|;
    Zeros(if missing < 0 then 0 else missing) + Digits(n)
  }

  lemma FilledReadsBack(n: nat, width: int)
    ensures |Filled(n, width)| >= width && |Filled(n, width)| > 0 && AllDigits(Filled(n, width))
    ensures ReadNumber(Filled(n, width)) == n
    ensures |Filled(n, width)| > width && n > 0 ==> Filled(n, width)[0] != '0'
  {
    hide ReadNumber, AllDigits;
    DigitsReadBack(n);
    var missing := width - |Digits(n)|;
    ZerosReadAsNothing(if missing < 0 then 0 else missing, Digits(n));
  }

  lemma PaddedIsFilled(n: int, width: nat)
    ensures n >= 0 ==> Padded(n, width) == Filled(n, width)
    ensures n < 0 ==> Padded(n, width) == "-" + Filled(-n, width - 1)
  {
    if n < 0 {
      var missing := width - 1 - |Digits(-n)|;
      var zeros := Zeros(if missing < 0 then 0 else missing);
      assert "-" + zeros + Digits(-n) == "-" + (zeros + Digits(-n));
    }
  }

  /** A padded number reads back; the padding is no longer than needed, and a sign comes first. */
  lemma PaddedReadsBack(n: int, width: nat)
    ensures var p, sign := Padded(n, width), if n < 0 then 1 else 0;
      && |p| >= width && |p| > sign && (n < 0 ==> p[0] == '-') && AllDigits(p[sign..])
      && ReadNumber(p[sign..]) == (if n < 0 then -n else n) && (|p| > width && n != 0 ==> p[sign] != '0')
      && ReadSigned(p) == n
  {
    hide Padded, Filled, ReadNumber;
    PaddedIsFilled(n, width);
    if n < 0 {
      FilledReadsBack(-n, width - 1);
      assert Padded(n, width)[1..] == Filled(-n, width - 1);
    } else {
      FilledReadsBack(n, width);
      assert Padded(n, width)[0..] == Filled(n, width);
    }
  }

  /** Two digits at position k say n. */
  ghost predicate Shows(text: string, k: int, n: int) {
    0 <= k && k + 2 <= |text| && AllDigits(TwoAt(text, k)) && ReadNumber(TwoAt(text, k)) == n
  }

  lemma TwoDigits(n: nat)
    requires n < 100
    ensures |Padded(n, 2)| == 2 && AllDigits(Padded(n, 2)) && ReadNumber(Padded(n, 2)) == n
  {
    assert Pow10(2) == 100;
    PaddedIsFixed(n, 2);
    PaddedReadsBack(n, 2);
    assert Padded(n, 2)[0..] == Padded(n, 2);
  }

  /** Where the fields and separators of a text stand. */
  ghost predicate LaidOut(text: string, year: string, month: string, day: string, hour: string, minute: string, second: string) {
    var n := |text| - 16;
    && n == |year| && text[..n] == year
    && text[n] == '-' && TwoAt(text, n + 1) == month && text[n + 3] == '-' && TwoAt(text, n + 4) == day
    && text[n + 6] == 'T' && TwoAt(text, n + 7) == hour && text[n + 9] == ':' && TwoAt(text, n + 10) == minute
    && text[n + 12] == ':' && TwoAt(text, n + 13) == second && text[n + 15] == 'Z'
  }

  lemma JoinedIsLaidOut(year: string, month: string, day: string, hour: string, minute: string, second: string)
    requires |month| == |day| == |hour| == |minute| == |second| == 2
    ensures LaidOut(year + ("-" + (month + ("-" + (day + ("T" + (hour + (":" + (minute + (":" + (second + "Z")))))))))),
                    year, month, day, hour, minute, second)
  {
  }

  lemma ValidFields(t: DateTime)
    requires Valid(t)
    ensures 1 <= t.date.month <= 12 && 1 <= t.date.day <= 31
    ensures 0 <= t.hour < 24 && 0 <= t.minute < 60 && 0 <= t.second < 60
  {
  }

  lemma YearField(year: int)
    ensures ReadSigned(Padded(year, 4)) == year && |Padded(year, 4)| >= 4
    ensures year >= 0 ==> AllDigits(Padded(year, 4))
    ensures 0 <= year <= 9999 ==> |Padded(year, 4)| == 4
  {
    hide Padded, ReadSigned, AllDigits;
    PaddedReadsBack(year, 4);
    if 0 <= year {
      assert Padded(year, 4)[0..] == Padded(year, 4);
    }
    assert Pow10(4) == 10000;
    if 0 <= year <= 9999 {
      PaddedIsFixed(year, 4);
    }
  }

  /** The text of a date and time: its fields, read as decimal numbers, are those of the date and time, with the
      separators between them. */
  ghost predicate Spells(text: string, t: DateTime) {
    var n := |text| - 16;
    && n >= 4 && ReadSigned(text[..n]) == t.date.year && (t.date.year >= 0 ==> AllDigits(text[..n]))
    && text[n] == '-' && Shows(text, n + 1, t.date.month) && text[n + 3] == '-' && Shows(text, n + 4, t.date.day)
    && text[n + 6] == 'T' && Shows(text, n + 7, t.hour) && text[n + 9] == ':' && Shows(text, n + 10, t.minute)
    && text[n + 12] == ':' && Shows(text, n + 13, t.second) && text[n + 15] == 'Z'
  }

  lemma LaidOutSpells(text: string, t: DateTime, year: string, month: string, day: string, hour: string, minute: string,
                      second: string)
    requires LaidOut(text, year, month, day, hour, minute, second)
    requires |year| >= 4 && ReadSigned(year) == t.date.year && (t.date.year >= 0 ==> AllDigits(year))
    requires AllDigits(month) && ReadNumber(month) == t.date.month && AllDigits(day) && ReadNumber(day) == t.date.day
    requires AllDigits(hour) && ReadNumber(hour) == t.hour && AllDigits(minute) && ReadNumber(minute) == t.minute
    requires AllDigits(second) && ReadNumber(second) == t.second
    ensures Spells(text, t)
  {
    hide ReadNumber, ReadSigned, AllDigits, TwoAt;
  }

  lemma FormatIsLaidOut(t: DateTime)
    requires Valid(t)
    ensures LaidOut(Format(t), Padded(t.date.year, 4), Padded(t.date.month, 2), Padded(t.date.day, 2),
                    Padded(t.hour, 2), Padded(t.minute, 2), Padded(t.second, 2))
  {
    ValidFields(t);
    TwoDigits(t.date.month);
    TwoDigits(t.date.day);
    TwoDigits(t.hour);
    TwoDigits(t.minute);
    TwoDigits(t.second);
    hide Valid, Padded, LaidOut;
    JoinedIsLaidOut(Padded(t.date.year, 4), Padded(t.date.month, 2), Padded(t.date.day, 2),
                    Padded(t.hour, 2), Padded(t.minute, 2), Padded(t.second, 2));
  }

  lemma FormatSpells(t: DateTime)
    requires Valid(t)
    ensures Spells(Format(t), t)
    ensures 0 <= t.date.year <= 9999 ==> |Format(t)| == 20
  {
    ValidFields(t);
    FormatIsLaidOut(t);
    hide Valid, Padded, Format, ReadNumber, ReadSigned, AllDigits, Spells;
    YearField(t.date.year);
    TwoDigits(t.date.month);
    TwoDigits(t.date.day);
    TwoDigits(t.hour);
    TwoDigits(t.minute);
    TwoDigits(t.second);
    LaidOutSpells(Format(t), t, Padded(t.date.year, 4), Padded(t.date.month, 2), Padded(t.date.day, 2),
                  Padded(t.hour, 2), Padded(t.minute, 2), Padded(t.second, 2));
  }

  /** For every instant the text spells its date and time, with 20 characters if the year has four digits. */
  lemma TextReadsBack(secs: int)
    ensures Spells(FormatUnixUtc(secs), CivilTimeOf(secs))
    ensures 0 <= CivilTimeOf(secs).date.year <= 9999 ==> |FormatUnixUtc(secs)| == 20
  {
    hide Spells, CivilTimeOf, Format;
    RoundTrip(secs);
    FormatSpells(CivilTimeOf(secs));
  }

  /** So the text determines the instant: reading it gives the date and time, and their seconds, back. */
  lemma TextDeterminesInstant(secs: int)
    ensures |FormatUnixUtc(secs)| >= 20
    ensures ReadTime(FormatUnixUtc(secs)) == CivilTimeOf(secs)
    ensures SecondNumber(ReadTime(FormatUnixUtc(secs))) == secs
  {
    hide CivilTimeOf, FormatUnixUtc, SecondNumber, ReadNumber, ReadSigned;
    TextReadsBack(secs);
    RoundTrip(secs);
  }
}
