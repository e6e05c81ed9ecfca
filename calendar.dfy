/**
 * The Win32 time conversions the formatters call: a FILETIME (a count of
 * 100 ns intervals since 1601-01-01 00:00 UTC, in two 32-bit words) is
 * broken into a SYSTEMTIME on the proleptic Gregorian calendar.
 *
 * 1601 is the first year of a 400-year Gregorian cycle, so a day count is
 * split into 400-, 100-, 4- and 1-year blocks. SystemTimeToFileTime is the
 * inverse direction; the two are proved to undo each other.
 */
module Calendar {
  import opened Numerics

  const TICKS_PER_MILLISECOND := 10_000
  const TICKS_PER_SECOND := 10_000_000
  const SECONDS_PER_DAY := 86_400
  const EPOCH_YEAR := 1601
  const DAYS_PER_400_YEARS := 146_097
  const DAYS_PER_100_YEARS := 36_524
  const DAYS_PER_4_YEARS := 1_461
  /** FileTimeToSystemTime fails on a FILETIME whose top bit is set. */
  const FILETIME_LIMIT := 0x8000_0000_0000_0000

  /** A Win32 FILETIME as its two 32-bit words. */
  datatype FileTime = FileTime(dwLowDateTime: int, dwHighDateTime: int)
  {
    predicate Valid() { 0 <= dwLowDateTime < TWO_POW_32 && 0 <= dwHighDateTime < TWO_POW_32 }

    /** The 64-bit tick count the two words spell. */
    function Ticks(): int { dwHighDateTime * TWO_POW_32 + dwLowDateTime }
  }

  /** The FILETIMEs FileTimeToSystemTime accepts. */
  predicate IsConvertible(ft: FileTime)
  {
    ft.Valid() && ft.dwHighDateTime < 0x8000_0000
  }

  /** The FILETIME whose words hold a tick count in [0, 2^64). */
  function FileTimeOfTicks(t: int): (ft: FileTime)
    requires 0 <= t < TWO_POW_64
    ensures ft.Valid() && ft.Ticks() == t
    ensures IsConvertible(ft) <==> t < FILETIME_LIMIT
  {
    FileTime(t % TWO_POW_32, t / TWO_POW_32)
  }

  /** A Win32 SYSTEMTIME (the day-of-week word is not modelled). */
  datatype SystemTime = SystemTime(year: int, month: int, day: int,
                                   hour: int, minute: int, second: int, milliseconds: int)

  predicate IsLeapYear(y: int)
  {
    y % 4 == 0 && (y % 100 != 0 || y % 400 == 0)
  }

  function DaysInYear(y: int): int
  {
    if IsLeapYear(y) then 366 else 365
  }

  function DaysInMonth(y: int, m: int): int
    requires 1 <= m <= 12
  {
    if m == 2 then (if IsLeapYear(y) then 29 else 28)
    else if m == 4 || m == 6 || m == 9 || m == 11 then 30
    else 31
  }

  /** Days of year y before the first of month m. */
  function DaysBeforeMonth(y: int, m: int): int
    requires 1 <= m <= 12
  {
    var common := [0, 31, 59, 90, 120, 151, 181, 212, 243, 273, 304, 334][m - 1];
    if m > 2 && IsLeapYear(y) then common + 1 else common
  }

  predicate ValidDate(y: int, m: int, d: int)
  {
    y >= EPOCH_YEAR && 1 <= m <= 12 && 1 <= d <= DaysInMonth(y, m)
  }

  predicate ValidSystemTime(st: SystemTime)
  {
    && ValidDate(st.year, st.month, st.day)
    && 0 <= st.hour < 24 && 0 <= st.minute < 60 && 0 <= st.second < 60
    && 0 <= st.milliseconds < 1000
  }

  /** Days from 1601-01-01 to the first of January of year y. */
  function DaysBeforeYear(y: int): int
    requires y >= EPOCH_YEAR
  {
    var n := y - EPOCH_YEAR;
    365 * n + n / 4 - n / 100 + n / 400
  }

  /** Days from 1601-01-01 to the given date. */
  function DaysFromCivil(y: int, m: int, d: int): int
    requires ValidDate(y, m, d)
  {
    DaysBeforeYear(y) + DaysBeforeMonth(y, m) + d - 1
  }

  lemma DivMod4(x: int, q: int, r: int)
    requires x == 4 * q + r && 0 <= r < 4
    ensures x / 4 == q && x % 4 == r
  {
  }

  lemma DivMod100(x: int, q: int, r: int)
    requires x == 100 * q + r && 0 <= r < 100
    ensures x / 100 == q && x % 100 == r
  {
  }

  lemma DivMod400(x: int, q: int, r: int)
    requires x == 400 * q + r && 0 <= r < 400
    ensures x / 400 == q && x % 400 == r
  {
  }

  /** Year number n after 1601 written as 400 a + 100 b + 4 c + e: where its first day falls, and whether it is a leap year. */
  lemma YearBlocks(a: nat, b: nat, c: nat, e: nat)
    requires b <= 3 && c <= 24 && e <= 3
    ensures DaysBeforeYear(EPOCH_YEAR + 400 * a + 100 * b + 4 * c + e)
         == DAYS_PER_400_YEARS * a + DAYS_PER_100_YEARS * b + DAYS_PER_4_YEARS * c + 365 * e
    ensures IsLeapYear(EPOCH_YEAR + 400 * a + 100 * b + 4 * c + e) <==> e == 3 && (c != 24 || b == 3)
  {
    var n := 400 * a + 100 * b + 4 * c + e;
    DivMod4(n, 100 * a + 25 * b + c, e);
    DivMod100(n, 4 * a + b, 4 * c + e);
    DivMod400(n, a, 100 * b + 4 * c + e);
    var y := EPOCH_YEAR + n;
    if e == 3 {
      DivMod4(y, 401 + 100 * a + 25 * b + c, 0);
    } else {
      DivMod4(y, 400 + 100 * a + 25 * b + c, 1 + e);
    }
    if c == 24 && e == 3 {
      DivMod100(y, 17 + 4 * a + b, 0);
    } else {
      DivMod100(y, 16 + 4 * a + b, 1 + 4 * c + e);
    }
    if b == 3 && c == 24 && e == 3 {
      DivMod400(y, 5 + a, 0);
    } else {
      DivMod400(y, 4 + a, 1 + 100 * b + 4 * c + e);
    }
  }


  /** The year a day count (from 1601-01-01) falls in, and the 0-based day within that year. */
  function YearAndDay(days: nat): (r: (int, nat))
    ensures r.0 >= EPOCH_YEAR && r.1 < DaysInYear(r.0)
    ensures DaysBeforeYear(r.0) + r.1 == days
  {
    var cycles := days / DAYS_PER_400_YEARS;
    var d1 := days % DAYS_PER_400_YEARS;
    // the last day of a 400-year cycle is the 366th day of its 400th year
    var centuries := if d1 / DAYS_PER_100_YEARS == 4 then 3 else d1 / DAYS_PER_100_YEARS;
    var d2 := d1 - DAYS_PER_100_YEARS * centuries;
    var quads := d2 / DAYS_PER_4_YEARS;
    var d3 := d2 % DAYS_PER_4_YEARS;
    // the last day of a 4-year block is the 366th day of its 4th year
    var years := if d3 / 365 == 4 then 3 else d3 / 365;
    var dayOfYear := d3 - 365 * years;
    assert d2 <= DAYS_PER_100_YEARS && quads <= 24;
    assert centuries < 3 && quads == 24 ==> d3 < 1460;
    YearBlocks(cycles, centuries, quads, years);
    (EPOCH_YEAR + 400 * cycles + 100 * centuries + 4 * quads + years, dayOfYear)
  }

  /** The month, searched from month m on, holding the 0-based day of year doy, and the day of that month. */
  function MonthAndDay(y: int, doy: int, m: int): (r: (int, int))
    requires 1 <= m <= 12 && DaysBeforeMonth(y, m) <= doy < DaysInYear(y)
    ensures m <= r.0 <= 12 && 1 <= r.1 <= DaysInMonth(y, r.0)
    ensures DaysBeforeMonth(y, r.0) + r.1 - 1 == doy
    decreases 12 - m
  {
    if m == 12 || doy < DaysBeforeMonth(y, m + 1) then (m, doy - DaysBeforeMonth(y, m) + 1)
    else MonthAndDay(y, doy, m + 1)
  }

  /**
   * The tick count a SYSTEMTIME stands for (SystemTimeToFileTime): it splits
   * back into the date's day number, the second of the day and the
   * milliseconds.
   */
  function SystemTimeToTicks(st: SystemTime): (t: int)
    requires ValidSystemTime(st)
    ensures 0 <= t
    ensures t / TICKS_PER_SECOND / SECONDS_PER_DAY == DaysFromCivil(st.year, st.month, st.day)
    ensures t / TICKS_PER_SECOND % SECONDS_PER_DAY == st.hour * 3600 + st.minute * 60 + st.second
    ensures (t % TICKS_PER_SECOND) / TICKS_PER_MILLISECOND == st.milliseconds
  {
    var days := DaysFromCivil(st.year, st.month, st.day);
    var secondOfDay := st.hour * 3600 + st.minute * 60 + st.second;
    DaysBeforeYearLower(st.year);
    TimeOfDayJoin(st.hour, st.minute, st.second);
    TicksJoin(days, secondOfDay, st.milliseconds);
    ((days * SECONDS_PER_DAY + secondOfDay) * 1000 + st.milliseconds) * TICKS_PER_MILLISECOND
  }

  /** How a tick count splits into days, seconds of the day and milliseconds. */
  lemma TicksSplit(t: nat)
    ensures var wholeSeconds := t / TICKS_PER_SECOND;
            var secondOfDay := wholeSeconds % SECONDS_PER_DAY;
            && t - t % TICKS_PER_MILLISECOND
               == (wholeSeconds * 1000 + (t % TICKS_PER_SECOND) / TICKS_PER_MILLISECOND) * TICKS_PER_MILLISECOND
            && wholeSeconds == (wholeSeconds / SECONDS_PER_DAY) * SECONDS_PER_DAY + secondOfDay
            && secondOfDay == (secondOfDay / 3600) * 3600 + (secondOfDay / 60 % 60) * 60 + secondOfDay % 60
  {
  }

  /**
   * FileTimeToSystemTime: the calendar date and time of day of a FILETIME, to
   * the millisecond. Converting back gives the FILETIME rounded down to a
   * whole millisecond.
   */
  function FileTimeToSystemTime(ft: FileTime): (st: SystemTime)
    requires IsConvertible(ft)
    ensures ValidSystemTime(st)
    ensures SystemTimeToTicks(st) == ft.Ticks() - ft.Ticks() % TICKS_PER_MILLISECOND
  {
    var t := ft.Ticks();
    var wholeSeconds := t / TICKS_PER_SECOND;
    var milliseconds := (t % TICKS_PER_SECOND) / TICKS_PER_MILLISECOND;
    var secondOfDay := wholeSeconds % SECONDS_PER_DAY;
    var (year, dayOfYear) := YearAndDay(wholeSeconds / SECONDS_PER_DAY);
    var (month, day) := MonthAndDay(year, dayOfYear, 1);
    TicksSplit(t);
    SystemTime(year, month, day, secondOfDay / 3600, secondOfDay / 60 % 60, secondOfDay % 60, milliseconds)
  }

  lemma DaysBeforeYearStep(y: int)
    requires y >= EPOCH_YEAR
    ensures DaysBeforeYear(y + 1) == DaysBeforeYear(y) + DaysInYear(y)
  {
    var n := y - EPOCH_YEAR;
    var k := n + 1;
    DivStep(n, 4);
    DivStep(n, 100);
    DivStep(n, 400);
    var by4, by100, by400 := k % 4 == 0, k % 100 == 0, k % 400 == 0;
    assert DaysBeforeYear(y + 1) - DaysBeforeYear(y)
        == 365 + (if by4 then 1 else 0) - (if by100 then 1 else 0) + (if by400 then 1 else 0);
    DivisibilityChain(k);
    LeapYearShift(k);
    assert y == 1600 + k;
  }

  lemma DivisibilityChain(k: int)
    ensures k % 400 == 0 ==> k % 100 == 0
    ensures k % 100 == 0 ==> k % 4 == 0
  {
    if k % 400 == 0 {
      DivMod400(k, k / 400, 0);
      DivMod100(k, 4 * (k / 400), 0);
    }
    if k % 100 == 0 {
      DivMod100(k, k / 100, 0);
      DivMod4(k, 25 * (k / 100), 0);
    }
  }


  /** 1600 + k is a leap year exactly when k is one of the leap offsets, 1600 being a multiple of 400. */
  lemma LeapYearShift(k: int)
    ensures IsLeapYear(1600 + k) <==> k % 4 == 0 && (k % 100 != 0 || k % 400 == 0)
  {
    DivMod4(k, k / 4, k % 4);
    DivMod4(1600 + k, 400 + k / 4, k % 4);
    DivMod100(k, k / 100, k % 100);
    DivMod100(1600 + k, 16 + k / 100, k % 100);
    DivMod400(k, k / 400, k % 400);
    DivMod400(1600 + k, 4 + k / 400, k % 400);
  }


  lemma DivStep(n: nat, d: int)
    requires d == 4 || d == 100 || d == 400
    ensures (n + 1) / d == n / d + (if (n + 1) % d == 0 then 1 else 0)
  {
    var q, r := n / d, n % d;
    var q', r' := if r == d - 1 then q + 1 else q, if r == d - 1 then 0 else r + 1;
    if d == 4 {
      DivMod4(n, q, r);
      DivMod4(n + 1, q', r');
    } else if d == 100 {
      DivMod100(n, q, r);
      DivMod100(n + 1, q', r');
    } else {
      DivMod400(n, q, r);
      DivMod400(n + 1, q', r');
    }
  }


  /** A later year starts after every day of an earlier one. */
  lemma {:induction false} DaysBeforeYearGrows(y1: int, y2: int)
    requires EPOCH_YEAR <= y1 < y2
    ensures DaysBeforeYear(y2) >= DaysBeforeYear(y1) + DaysInYear(y1)
    decreases y2 - y1
  {
    DaysBeforeYearStep(y1);
    if y1 + 1 < y2 {
      DaysBeforeYearGrows(y1 + 1, y2);
    }
  }

  /** A (year, day of year) pair is the only one its day count decomposes into. */
  lemma YearAndDayUnique(y: int, doy: nat)
    requires y >= EPOCH_YEAR && doy < DaysInYear(y)
    ensures YearAndDay(DaysBeforeYear(y) + doy) == (y, doy)
  {
    var r := YearAndDay(DaysBeforeYear(y) + doy);
    if r.0 < y {
      DaysBeforeYearGrows(r.0, y);
    } else if r.0 > y {
      DaysBeforeYearGrows(y, r.0);
    }
  }

  /** A (month, day) pair of year y is the only one its day of year decomposes into. */
  lemma {:induction false} MonthAndDayUnique(y: int, m: int, d: int, from: int)
    requires ValidDate(y, m, d) && 1 <= from <= m
    ensures DaysInYear(y) > DaysBeforeMonth(y, m) + d - 1
    ensures MonthAndDay(y, DaysBeforeMonth(y, m) + d - 1, from) == (m, d)
    decreases m - from
  {
    var doy := DaysBeforeMonth(y, m) + d - 1;
    if from < m {
      assert DaysBeforeMonth(y, from + 1) <= DaysBeforeMonth(y, m);
      MonthAndDayUnique(y, m, d, from + 1);
    }
  }

  lemma TicksJoin(days: nat, secondOfDay: nat, milliseconds: nat)
    requires secondOfDay < SECONDS_PER_DAY && milliseconds < 1000
    ensures var t := ((days * SECONDS_PER_DAY + secondOfDay) * 1000 + milliseconds) * TICKS_PER_MILLISECOND;
            && t / TICKS_PER_SECOND == days * SECONDS_PER_DAY + secondOfDay
            && (t % TICKS_PER_SECOND) / TICKS_PER_MILLISECOND == milliseconds
            && t / TICKS_PER_SECOND / SECONDS_PER_DAY == days
            && t / TICKS_PER_SECOND % SECONDS_PER_DAY == secondOfDay
  {
    var w := days * SECONDS_PER_DAY + secondOfDay;
    var t := (w * 1000 + milliseconds) * TICKS_PER_MILLISECOND;
    assert t == w * TICKS_PER_SECOND + milliseconds * TICKS_PER_MILLISECOND;
    DivModSecond(t, w, milliseconds * TICKS_PER_MILLISECOND);
    DivModDay(w, days, secondOfDay);
  }

  lemma DivModSecond(x: int, q: int, r: int)
    requires x == TICKS_PER_SECOND * q + r && 0 <= r < TICKS_PER_SECOND
    ensures x / TICKS_PER_SECOND == q && x % TICKS_PER_SECOND == r
  {
  }

  lemma DivModDay(x: int, q: int, r: int)
    requires x == SECONDS_PER_DAY * q + r && 0 <= r < SECONDS_PER_DAY
    ensures x / SECONDS_PER_DAY == q && x % SECONDS_PER_DAY == r
  {
  }


  lemma TimeOfDayJoin(h: nat, m: nat, s: nat)
    requires h < 24 && m < 60 && s < 60
    ensures var sod := h * 3600 + m * 60 + s;
            sod < SECONDS_PER_DAY && sod / 3600 == h && sod / 60 % 60 == m && sod % 60 == s
  {
  }

  /** The day number of a valid date splits back into that date. */
  lemma CivilRoundTrip(y: int, m: int, d: int)
    requires ValidDate(y, m, d)
    ensures var doy := DaysBeforeMonth(y, m) + d - 1;
            && 0 <= doy < DaysInYear(y)
            && YearAndDay(DaysFromCivil(y, m, d)) == (y, doy)
            && MonthAndDay(y, doy, 1) == (m, d)
  {
    var doy := DaysBeforeMonth(y, m) + d - 1;
    MonthAndDayUnique(y, m, d, 1);
    YearAndDayUnique(y, doy);
  }

  /** Every year has at least 365 days, so the day count before a year is at least 365 per year since 1601. */
  lemma DaysBeforeYearLower(y: int)
    requires y >= EPOCH_YEAR
    ensures DaysBeforeYear(y) >= 365 * (y - EPOCH_YEAR)
  {
    var n := y - EPOCH_YEAR;
    var q, r := n / 100, n % 100;
    DivMod100(n, q, r);
    DivMod4(n, 25 * q + r / 4, r % 4);
  }

  /** FileTimeToSystemTime in terms of the date the day number splits into, the time of day and the millisecond. */
  lemma FileTimeToSystemTimeParts(ft: FileTime, days: nat, y: int, doy: nat, m: int, d: int,
                                  secondOfDay: nat, hour: int, minute: int, second: int, milliseconds: nat)
    requires IsConvertible(ft)
    requires ft.Ticks() / TICKS_PER_SECOND / SECONDS_PER_DAY == days
    requires ft.Ticks() / TICKS_PER_SECOND % SECONDS_PER_DAY == secondOfDay
    requires (ft.Ticks() % TICKS_PER_SECOND) / TICKS_PER_MILLISECOND == milliseconds
    requires YearAndDay(days) == (y, doy)
    requires y >= EPOCH_YEAR && doy < DaysInYear(y) && MonthAndDay(y, doy, 1) == (m, d)
    requires secondOfDay / 3600 == hour && secondOfDay / 60 % 60 == minute && secondOfDay % 60 == second
    ensures FileTimeToSystemTime(ft) == SystemTime(y, m, d, hour, minute, second, milliseconds)
  {
  }

  /** SystemTimeToFileTime followed by FileTimeToSystemTime gives back any valid SYSTEMTIME below the FILETIME limit. */
  lemma SystemTimeRoundTrip(st: SystemTime)
    requires ValidSystemTime(st) && SystemTimeToTicks(st) < FILETIME_LIMIT
    ensures FileTimeToSystemTime(FileTimeOfTicks(SystemTimeToTicks(st))) == st
  {
    var t := SystemTimeToTicks(st);
    var ft := FileTimeOfTicks(t);
    assert ft.Ticks() == t;
    SystemTimeOfParts(ft, st);
  }

  /** A FILETIME whose day number, second of the day and millisecond are those of a valid SYSTEMTIME converts to it. */
  lemma SystemTimeOfParts(ft: FileTime, st: SystemTime)
    requires IsConvertible(ft) && ValidSystemTime(st)
    requires ft.Ticks() / TICKS_PER_SECOND / SECONDS_PER_DAY == DaysFromCivil(st.year, st.month, st.day)
    requires ft.Ticks() / TICKS_PER_SECOND % SECONDS_PER_DAY == st.hour * 3600 + st.minute * 60 + st.second
    requires (ft.Ticks() % TICKS_PER_SECOND) / TICKS_PER_MILLISECOND == st.milliseconds
    ensures FileTimeToSystemTime(ft) == st
  {
    var days := DaysFromCivil(st.year, st.month, st.day);
    var secondOfDay := st.hour * 3600 + st.minute * 60 + st.second;
    var doy := DaysBeforeMonth(st.year, st.month) + st.day - 1;
    SystemTimeFields(st);
    FileTimeToSystemTimeParts(ft, days, st.year, doy, st.month, st.day,
                              secondOfDay, st.hour, st.minute, st.second, st.milliseconds);
  }

  /** The day number and the second of the day of a valid SYSTEMTIME split back into its fields. */
  lemma SystemTimeFields(st: SystemTime)
    requires ValidSystemTime(st)
    ensures var secondOfDay := st.hour * 3600 + st.minute * 60 + st.second;
            secondOfDay / 3600 == st.hour && secondOfDay / 60 % 60 == st.minute && secondOfDay % 60 == st.second
    ensures var doy := DaysBeforeMonth(st.year, st.month) + st.day - 1;
            && 0 <= doy < DaysInYear(st.year)
            && YearAndDay(DaysFromCivil(st.year, st.month, st.day)) == (st.year, doy)
            && MonthAndDay(st.year, doy, 1) == (st.month, st.day)
  {
    TimeOfDayJoin(st.hour, st.minute, st.second);
    CivilRoundTrip(st.year, st.month, st.day);
  }

  /** Everything FileTimeToSystemTime returns except the milliseconds depends on the whole second only. */
  lemma SameSecondSameSystemTime(ft1: FileTime, ft2: FileTime)
    requires IsConvertible(ft1) && IsConvertible(ft2)
    requires ft1.Ticks() / TICKS_PER_SECOND == ft2.Ticks() / TICKS_PER_SECOND
    ensures FileTimeToSystemTime(ft1).(milliseconds := 0) == FileTimeToSystemTime(ft2).(milliseconds := 0)
  {
  }

  /** Without its milliseconds, the SYSTEMTIME stands for the FILETIME rounded down to a whole second. */
  lemma WholeSecondOfSystemTime(ft: FileTime)
    requires IsConvertible(ft)
    ensures var st := FileTimeToSystemTime(ft).(milliseconds := 0);
            ValidSystemTime(st) && SystemTimeToTicks(st) == ft.Ticks() / TICKS_PER_SECOND * TICKS_PER_SECOND
  {
    var t := ft.Ticks();
    var st := FileTimeToSystemTime(ft);
    assert st.milliseconds == (t % TICKS_PER_SECOND) / TICKS_PER_MILLISECOND;
    assert SystemTimeToTicks(st.(milliseconds := 0)) == SystemTimeToTicks(st) - st.milliseconds * TICKS_PER_MILLISECOND;
    MillisecondsSplit(t);
  }

  lemma MillisecondsSplit(t: nat)
    ensures t - t % TICKS_PER_MILLISECOND - (t % TICKS_PER_SECOND) / TICKS_PER_MILLISECOND * TICKS_PER_MILLISECOND
         == t / TICKS_PER_SECOND * TICKS_PER_SECOND
  {
    var q, r := t / TICKS_PER_SECOND, t % TICKS_PER_SECOND;
    var a, b := r / TICKS_PER_MILLISECOND, r % TICKS_PER_MILLISECOND;
    assert t == q * TICKS_PER_SECOND + a * TICKS_PER_MILLISECOND + b;
    assert t == (q * 1000 + a) * TICKS_PER_MILLISECOND + b;
    assert t % TICKS_PER_MILLISECOND == b;
  }

  /** A SYSTEMTIME stands for no earlier a tick than the first of January of its year. */
  lemma TicksAtLeastYearStart(st: SystemTime)
    requires ValidSystemTime(st)
    ensures SystemTimeToTicks(st) >= DaysBeforeYear(st.year) * SECONDS_PER_DAY * TICKS_PER_SECOND
  {
  }

  /** A SYSTEMTIME falls on the first day, 1601-01-01, exactly when it stands for less than one day of ticks. */
  lemma FirstDay(st: SystemTime)
    requires ValidSystemTime(st)
    ensures SystemTimeToTicks(st) < SECONDS_PER_DAY * TICKS_PER_SECOND
        <==> st.year == EPOCH_YEAR && st.month == 1 && st.day == 1
  {
    var days := DaysFromCivil(st.year, st.month, st.day);
    var seconds := days * SECONDS_PER_DAY + st.hour * 3600 + st.minute * 60 + st.second;
    assert 0 <= st.hour * 3600 + st.minute * 60 + st.second < SECONDS_PER_DAY;
    assert days >= 0;
    if days == 0 {
      assert SystemTimeToTicks(st) < SECONDS_PER_DAY * TICKS_PER_SECOND;
    } else {
      assert seconds >= SECONDS_PER_DAY;
    }
    if st.year > EPOCH_YEAR {
      assert DaysBeforeYear(st.year) >= 365;
    }
  }

  /** Below the FILETIME limit, different SYSTEMTIMEs stand for different tick counts. */
  lemma SystemTimeToTicksInjective(st1: SystemTime, st2: SystemTime)
    requires ValidSystemTime(st1) && ValidSystemTime(st2)
    requires SystemTimeToTicks(st1) == SystemTimeToTicks(st2) < FILETIME_LIMIT
    ensures st1 == st2
  {
    SystemTimeRoundTrip(st1);
    SystemTimeRoundTrip(st2);
  }
}
