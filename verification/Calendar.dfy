/** DateTime::set_ticks (framework/src/kfw_rtc.cpp): milliseconds since the epoch to
    calendar fields, with the source's integer widths, against a calendar that only
    knows month lengths, leap years and what the next day is. */
module Calendar {
  import opened Arith

  // ----- the source's arithmetic -----

  const EPOCH_ADJUSTMENT_DAYS := 719468
  const DAYS_PER_ERA := 146097
  const DAYS_PER_CENTURY := 36524
  const DAYS_PER_4_YEARS := 3 * 365 + 366
  const DAYS_PER_YEAR := 365
  const YEARS_PER_ERA := 400

  const SECONDS_PER_DAY := 86400
  const TICKS_PER_DAY := 86400000

  function ToUInt64(a: int): int { a % 0x1_0000_0000_0000_0000 }

  function ToInt32(a: int): int {
    var r := a % 0x1_0000_0000;
    if r < 0x8000_0000 then r else r - 0x1_0000_0000
  }

  function ToUInt16(a: int): int { a % 0x1_0000 }

  predicate Int64(a: int) { -0x8000_0000_0000_0000 <= a < 0x8000_0000_0000_0000 }

  datatype Date = Date(year: int, month: int, day: int)

  datatype DateTime = DateTime(date: Date, hour: int, min: int, sec: int, msec: int)

  function EraYear(eraday: int): int {
    Quot(eraday - Quot(eraday, DAYS_PER_4_YEARS - 1) + Quot(eraday, DAYS_PER_CENTURY)
         - Quot(eraday, DAYS_PER_ERA - 1), 365)
  }

  /** Month and day from the year and the day of the year, both counted from the first of March. */
  function FromYearDay(marchYear: int, yearday: int): Date {
    var month := Quot(5 * yearday + 2, 153);
    var day := yearday - Quot(153 * month + 2, 5) + 1;
    var month0 := month + (if month < 10 then 2 else -10);
    Date(marchYear + (if month0 <= 1 then 1 else 0), month0 + 1, day)
  }

  /** Year and day of the year, both counted from the first of March, of a day counted from 0000-03-01. */
  function MarchYearDay(days: int): (int, int) {
    var era := Quot(if days >= 0 then days else days - (DAYS_PER_ERA - 1), DAYS_PER_ERA);
    var eraday := days - era * DAYS_PER_ERA;
    var erayear := EraYear(eraday);
    (erayear + era * YEARS_PER_ERA,
     eraday - (DAYS_PER_YEAR * erayear + Quot(erayear, 4) - Quot(erayear, 100)))
  }

  function CivilFromDays(days: int): Date {
    var (marchYear, yearday) := MarchYearDay(days);
    FromYearDay(marchYear, yearday)
  }

  function SetTicks(ticks: int): DateTime
    requires Int64(ticks)
  {
    var totalSec := ToUInt64(Quot(ticks, 1000));
    var days := ToInt32(totalSec / SECONDS_PER_DAY + EPOCH_ADJUSTMENT_DAYS);
    var rem := totalSec % SECONDS_PER_DAY;
    var date := CivilFromDays(days);
    DateTime(date.(year := ToUInt16(date.year)),
             rem / 3600, rem % 3600 / 60, rem % 3600 % 60, ToUInt16(Rem(ticks, 1000)))
  }

  // ----- the reference calendar -----

  predicate Leap(y: int) { y % 4 == 0 && (y % 100 != 0 || y % 400 == 0) }

  function MonthLength(y: int, m: int): int
    requires 1 <= m <= 12
  {
    if m == 2 then (if Leap(y) then 29 else 28)
    else if m == 4 || m == 6 || m == 9 || m == 11 then 30
    else 31
  }

  predicate ValidDate(d: Date) {
    1 <= d.month <= 12 && 1 <= d.day <= MonthLength(d.year, d.month)
  }

  function NextDay(d: Date): Date
    requires ValidDate(d)
  {
    if d.day < MonthLength(d.year, d.month) then d.(day := d.day + 1)
    else if d.month < 12 then Date(d.year, d.month + 1, 1)
    else Date(d.year + 1, 1, 1)
  }

  const EPOCH := Date(1970, 1, 1)

  /** The date n days after the epoch, counted one day at a time. */
  ghost function DateAfter(n: nat): (d: Date)
    ensures ValidDate(d)
  {
    if n == 0 then EPOCH else NextDay(DateAfter(n - 1))
  }

  ghost function YearLength(y: int): int { if Leap(y) then 366 else 365 }

  /** Days from 1970-01-01 to the first of January of year y; negative before 1970. */
  ghost function DaysBeforeYear(y: int): int
    decreases if y < 1970 then 1970 - y else y - 1970
  {
    if y == 1970 then 0
    else if y > 1970 then DaysBeforeYear(y - 1) + YearLength(y - 1)
    else DaysBeforeYear(y + 1) - YearLength(y)
  }

  ghost function DaysBeforeMonth(y: int, m: int): int
    requires 1 <= m <= 12
    decreases m
  {
    if m == 1 then 0 else DaysBeforeMonth(y, m - 1) + MonthLength(y, m - 1)
  }

  /** Days since the epoch, by summing year and month lengths. */
  ghost function DayNumber(d: Date): int
    requires ValidDate(d)
  {
    DaysBeforeYear(d.year) + DaysBeforeMonth(d.year, d.month) + d.day - 1
  }

  ghost predicate ValidDateTime(t: DateTime) {
    && ValidDate(t.date) && 0 <= t.date.year < 0x1_0000
    && 0 <= t.hour < 24 && 0 <= t.min < 60 && 0 <= t.sec < 60 && 0 <= t.msec < 1000
  }

  ghost function TicksOf(t: DateTime): int
    requires ValidDateTime(t)
  {
    DayNumber(t.date) * TICKS_PER_DAY + ((t.hour * 60 + t.min) * 60 + t.sec) * 1000 + t.msec
  }

  /** First tick whose year does not fit the 16-bit field. */
  ghost function TickLimit(): int { DaysBeforeYear(0x1_0000) * TICKS_PER_DAY }

  // ----- years that start on the first of March -----

  ghost function MarchStart(y: int): int { 365 * y + y / 4 - y / 100 + y / 400 }

  lemma MarchYearLength(y: int)
    ensures MarchStart(y + 1) - MarchStart(y) == YearLength(y + 1)
  {
    assert (y + 1) / 4 - y / 4 == if (y + 1) % 4 == 0 then 1 else 0;
    assert (y + 1) / 100 - y / 100 == if (y + 1) % 100 == 0 then 1 else 0;
    assert (y + 1) / 400 - y / 400 == if (y + 1) % 400 == 0 then 1 else 0;
  }

  /** Every day of an era is one day of one year, written century, four-year cycle, year, day. */
  lemma EraDayParts(d: int) returns (c: int, q: int, m: int, k: int)
    requires 0 <= d < DAYS_PER_ERA
    ensures 0 <= c <= 3 && 0 <= q <= 24 && 0 <= m <= 3 && 0 <= k <= 365
    ensures d == 36524 * c + 1461 * q + 365 * m + k
    ensures k == 365 ==> m == 3 && (q != 24 || c == 3)
  {
    c := if d / 36524 == 4 then 3 else d / 36524;
    var r := d - 36524 * c;
    q := r / 1461;
    var s := r - 1461 * q;
    m := if s / 365 == 4 then 3 else s / 365;
    k := s - 365 * m;
  }

  lemma EraYearOfParts(c: int, q: int, m: int, k: int, d: int)
    requires 0 <= c <= 3 && 0 <= q <= 24 && 0 <= m <= 3 && 0 <= k <= 365
    requires d == 36524 * c + 1461 * q + 365 * m + k
    requires k == 365 ==> m == 3 && (q != 24 || c == 3)
    ensures EraYear(d) == 100 * c + 4 * q + m
  {
    var e := if 24 * c + q + 365 * m + k >= 1460 then 1 else 0;
    assert d == 1460 * (25 * c + q) + (24 * c + q + 365 * m + k);
    assert d / 1460 == 25 * c + q + e;
    assert d / 36524 - d / 146096 == c;
    assert d - d / 1460 + c == 365 * (100 * c + 4 * q + m) + (k - e);
    assert 0 <= k - e <= 364;
  }

  lemma MarchStartOfParts(era: int, c: int, q: int, m: int)
    requires 0 <= c <= 3 && 0 <= q <= 24 && 0 <= m <= 3
    ensures MarchStart(100 * c + 4 * q + m + 400 * era)
            == DAYS_PER_ERA * era + 36524 * c + 1461 * q + 365 * m
  {
    var y := 100 * c + 4 * q + m + 400 * era;
    DivModIs(y, 4, 25 * c + q + 100 * era, m);
    DivModIs(y, 100, c + 4 * era, 4 * q + m);
    DivModIs(y, 400, era, 100 * c + 4 * q + m);
  }

  lemma LeapOfParts(era: int, c: int, q: int, m: int)
    requires 0 <= c <= 3 && 0 <= q <= 24 && 0 <= m <= 3
    ensures Leap(100 * c + 4 * q + m + 400 * era + 1) <==> m == 3 && (q != 24 || c == 3)
  {
    var y := 100 * c + 4 * q + m + 400 * era + 1;
    if m < 3 {
      DivModIs(y, 4, 25 * c + q + 100 * era, m + 1);
    } else {
      DivModIs(y, 4, 25 * c + q + 100 * era + 1, 0);
      if q < 24 {
        DivModIs(y, 100, c + 4 * era, 4 * q + m + 1);
      } else {
        DivModIs(y, 100, c + 4 * era + 1, 0);
        if c < 3 { DivModIs(y, 400, era, 100 * c + 100); } else { DivModIs(y, 400, era + 1, 0); }
      }
    }
  }

  /** The year and day-of-year the source computes are the March year that holds the day. */
  lemma MarchYearOf(days: int) returns (y: int, k: int)
    requires days >= 0
    ensures days == MarchStart(y) + k && 0 <= k < YearLength(y + 1)
    ensures y >= 0
    ensures MarchYearDay(days) == (y, k)
  {
    var era := days / DAYS_PER_ERA;
    var d := days - era * DAYS_PER_ERA;
    var c, q, m, k' := EraDayParts(d);
    y, k := 100 * c + 4 * q + m + 400 * era, k';
    MarchStartOfParts(era, c, q, m);
    LeapOfParts(era, c, q, m);
    MarchYearDayOfParts(era, c, q, m, k, d);
  }

  lemma MarchYearDayOfParts(era: int, c: int, q: int, m: int, k: int, d: int)
    requires era >= 0 && 0 <= d < DAYS_PER_ERA
    requires 0 <= c <= 3 && 0 <= q <= 24 && 0 <= m <= 3 && 0 <= k <= 365
    requires d == 36524 * c + 1461 * q + 365 * m + k
    requires k == 365 ==> m == 3 && (q != 24 || c == 3)
    ensures MarchYearDay(DAYS_PER_ERA * era + d) == (100 * c + 4 * q + m + 400 * era, k)
  {
    hide EraYear;
    EraYearOfParts(c, q, m, k, d);
    DivModIs(DAYS_PER_ERA * era + d, DAYS_PER_ERA, era, d);
    var ey := 100 * c + 4 * q + m;
    DivModIs(ey, 4, 25 * c + q, m);
    DivModIs(ey, 100, c, 4 * q + m);
  }

  lemma YearDayIsValid(y: int, k: int)
    requires 0 <= k < YearLength(y + 1)
    ensures ValidDate(FromYearDay(y, k))
  {
  }

  lemma YearDayNext(y: int, k: int)
    requires 0 <= k < YearLength(y + 1)
    ensures ValidDate(FromYearDay(y, k))
    ensures NextDay(FromYearDay(y, k))
            == if k + 1 < YearLength(y + 1) then FromYearDay(y, k + 1) else FromYearDay(y + 1, 0)
  {
    YearDayIsValid(y, k);
  }

  lemma {:induction false} MarchStartMonotone(y: int, z: int)
    requires y < z
    ensures MarchStart(y + 1) <= MarchStart(z)
    decreases z - y
  {
    if y + 1 < z {
      MarchStartMonotone(y, z - 1);
      MarchYearLength(z - 1);
    }
  }

  lemma MarchDayUnique(y: int, k: int, z: int, l: int)
    requires 0 <= k < YearLength(y + 1) && 0 <= l < YearLength(z + 1)
    requires MarchStart(y) + k == MarchStart(z) + l
    ensures y == z && k == l
  {
    MarchYearLength(y);
    MarchYearLength(z);
    if y < z { MarchStartMonotone(y, z); }
    if z < y { MarchStartMonotone(z, y); }
  }

  /** The next day number is the next calendar day. */
  lemma CivilStep(days: int)
    requires days >= 0
    ensures ValidDate(CivilFromDays(days))
    ensures CivilFromDays(days + 1) == NextDay(CivilFromDays(days))
  {
    hide MarchYearDay;
    hide FromYearDay;
    var y, k := MarchYearOf(days);
    var z, l := MarchYearOf(days + 1);
    YearDayNext(y, k);
    if k + 1 < YearLength(y + 1) {
      MarchDayUnique(y, k + 1, z, l);
    } else {
      MarchYearLength(y);
      MarchDayUnique(y + 1, 0, z, l);
    }
  }

  lemma CivilEpoch()
    ensures CivilFromDays(EPOCH_ADJUSTMENT_DAYS) == EPOCH
  {
    hide MarchYearDay;
    MarchYearDayOfParts(4, 3, 17, 1, 306, 135080);
    assert FromYearDay(1969, 306) == EPOCH;
  }

  /** The source's closed formula is the date reached by counting days one at a time. */
  lemma {:induction false} CivilCounts(n: nat)
    ensures CivilFromDays(n + EPOCH_ADJUSTMENT_DAYS) == DateAfter(n)
  {
    hide CivilFromDays;
    if n == 0 {
      CivilEpoch();
    } else {
      CivilCounts(n - 1);
      CivilStep(n - 1 + EPOCH_ADJUSTMENT_DAYS);
    }
  }

  // ----- day numbers -----

  lemma MonthsFillYear(y: int, m: int)
    requires 1 <= m <= 12
    ensures 0 <= DaysBeforeMonth(y, m)
    ensures DaysBeforeMonth(y, m) + MonthLength(y, m) <= YearLength(y)
    ensures m == 12 ==> DaysBeforeMonth(y, m) + MonthLength(y, m) == YearLength(y)
  {
    assert DaysBeforeMonth(y, 4) == 62 + MonthLength(y, 2);
    assert DaysBeforeMonth(y, 7) == 153 + MonthLength(y, 2);
    assert DaysBeforeMonth(y, 10) == 245 + MonthLength(y, 2);
    assert DaysBeforeMonth(y, 12) == 306 + MonthLength(y, 2);
  }

  lemma YearStep(y: int)
    ensures DaysBeforeYear(y + 1) == DaysBeforeYear(y) + YearLength(y)
  {
  }

  lemma DayNumberStep(d: Date)
    requires ValidDate(d)
    ensures DayNumber(NextDay(d)) == DayNumber(d) + 1
  {
    MonthsFillYear(d.year, d.month);
    YearStep(d.year);
  }

  lemma {:induction false} DayNumberOfDateAfter(n: nat)
    ensures DayNumber(DateAfter(n)) == n
  {
    if n > 0 {
      DayNumberOfDateAfter(n - 1);
      DayNumberStep(DateAfter(n - 1));
    }
  }

  lemma {:induction false} YearsMonotone(y: int, z: int)
    requires y < z
    ensures DaysBeforeYear(y + 1) <= DaysBeforeYear(z)
    decreases z - y
  {
    if y + 1 < z {
      YearsMonotone(y, z - 1);
      YearStep(z - 1);
    }
  }

  lemma DayNumberInYear(d: Date)
    requires ValidDate(d)
    ensures DaysBeforeYear(d.year) <= DayNumber(d) < DaysBeforeYear(d.year + 1)
  {
    MonthsFillYear(d.year, d.month);
    YearStep(d.year);
  }

  lemma {:induction false} MonthsMonotone(y: int, m: int, n: int)
    requires 1 <= m < n <= 12
    ensures DaysBeforeMonth(y, m) + MonthLength(y, m) <= DaysBeforeMonth(y, n)
    decreases n
  {
    if m + 1 < n { MonthsMonotone(y, m, n - 1); }
  }

  /** No two dates share a day number. */
  lemma DayNumberInjective(a: Date, b: Date)
    requires ValidDate(a) && ValidDate(b) && DayNumber(a) == DayNumber(b)
    ensures a == b
  {
    DayNumberInYear(a);
    DayNumberInYear(b);
    if a.year < b.year { YearsMonotone(a.year, b.year); }
    if b.year < a.year { YearsMonotone(b.year, a.year); }
    if a.month < b.month { MonthsMonotone(a.year, a.month, b.month); }
    if b.month < a.month { MonthsMonotone(a.year, b.month, a.month); }
  }

  lemma {:induction false} DaysBeforeYearClosed(y: int)
    requires y >= 1970
    ensures DaysBeforeYear(y) == MarchStart(y - 1) + 306 - EPOCH_ADJUSTMENT_DAYS
    decreases y
  {
    if y > 1970 {
      DaysBeforeYearClosed(y - 1);
      MarchYearLength(y - 2);
    }
  }

  lemma TickLimitIs()
    ensures TickLimit() == 2005949145600000
  {
    hide DaysBeforeYear;
    DaysBeforeYearClosed(0x1_0000);
  }

  // ----- set_ticks -----

  lemma ClockFields(rem: int)
    requires 0 <= rem < SECONDS_PER_DAY
    ensures 0 <= rem / 3600 < 24 && 0 <= rem % 3600 / 60 < 60
    ensures (rem / 3600 * 60 + rem % 3600 / 60) * 60 + rem % 3600 % 60 == rem
  {
  }

  lemma TickDivision(t: int)
    requires t >= 0
    ensures t / 1000 / SECONDS_PER_DAY == t / TICKS_PER_DAY
    ensures t == t / TICKS_PER_DAY * TICKS_PER_DAY + t / 1000 % SECONDS_PER_DAY * 1000 + t % 1000
  {
    var n, r := t / TICKS_PER_DAY, t % TICKS_PER_DAY;
    DivModIs(t, 1000, SECONDS_PER_DAY * n + r / 1000, r % 1000);
    DivModIs(t / 1000, SECONDS_PER_DAY, n, r / 1000);
  }

  /** From this many days on, the day count overflows 32 bits. */
  const DAYS_LIMIT := 0x8000_0000 - EPOCH_ADJUSTMENT_DAYS

  lemma SetTicksParts(t: int)
    requires 0 <= t < DAYS_LIMIT * TICKS_PER_DAY
    ensures var d := CivilFromDays(t / TICKS_PER_DAY + EPOCH_ADJUSTMENT_DAYS); var rem := t / 1000 % SECONDS_PER_DAY;
            SetTicks(t) == DateTime(d.(year := ToUInt16(d.year)),
                                    rem / 3600, rem % 3600 / 60, rem % 3600 % 60, t % 1000)
  {
    hide CivilFromDays;
    hide ToUInt64;
    hide ToInt32;
    hide ToUInt16;
    hide Rem;
    hide Quot;
    TickDivision(t);
    WidthsHold(t);
  }

  /** No width the source goes through truncates a tick count in range. */
  lemma WidthsHold(t: int)
    requires 0 <= t < DAYS_LIMIT * TICKS_PER_DAY
    ensures Quot(t, 1000) == t / 1000 && ToUInt64(t / 1000) == t / 1000
    ensures Rem(t, 1000) == t % 1000 && ToUInt16(t % 1000) == t % 1000
    ensures ToInt32(t / TICKS_PER_DAY + EPOCH_ADJUSTMENT_DAYS) == t / TICKS_PER_DAY + EPOCH_ADJUSTMENT_DAYS
  {
    assert 0 <= t / TICKS_PER_DAY < DAYS_LIMIT;
    Int32Is(t / TICKS_PER_DAY + EPOCH_ADJUSTMENT_DAYS);
  }

  lemma Int32Is(a: int)
    requires 0 <= a < 0x8000_0000
    ensures ToInt32(a) == a
  {
  }

  /** A day number below the limit belongs to a year the 16-bit field can hold. */
  lemma YearFits(d: Date)
    requires ValidDate(d) && 0 <= DayNumber(d) < DaysBeforeYear(0x1_0000)
    ensures 1970 <= d.year < 0x1_0000
  {
    DayNumberInYear(d);
    if d.year < 1970 { YearsMonotone(d.year, 1970); }
    if d.year > 0x1_0000 { YearsMonotone(0x1_0000 - 1, d.year); }
  }

  /** In range, the date is reached by counting whole days and the clock fields hold the rest. */
  lemma SetTicksInRange(t: int)
    requires 0 <= t < TickLimit()
    ensures Int64(t)
    ensures SetTicks(t).date == DateAfter(t / TICKS_PER_DAY)
    ensures ValidDateTime(SetTicks(t)) && TicksOf(SetTicks(t)) == t
  {
    hide CivilFromDays;
    hide SetTicks;
    hide DayNumber;
    hide DaysBeforeYear;
    TickLimitIs();
    TickDivision(t);
    var n := t / TICKS_PER_DAY;
    SetTicksParts(t);
    CivilCounts(n);
    DayNumberOfDateAfter(n);
    YearFits(DateAfter(n));
    ClockFields(t / 1000 % SECONDS_PER_DAY);
  }

  /** As long as the day count does not overflow, only the year is cut to 16 bits. */
  lemma SetTicksWraps(t: int)
    requires 0 <= t < DAYS_LIMIT * TICKS_PER_DAY
    ensures var d := DateAfter(t / TICKS_PER_DAY); var x := SetTicks(t);
            && x.date == d.(year := d.year % 65536)
            && ((x.hour * 60 + x.min) * 60 + x.sec) * 1000 + x.msec == t % TICKS_PER_DAY
            && 0 <= x.hour < 24 && 0 <= x.min < 60 && 0 <= x.sec < 60 && 0 <= x.msec < 1000
  {
    hide CivilFromDays;
    hide SetTicks;
    TickDivision(t);
    SetTicksParts(t);
    CivilCounts(t / TICKS_PER_DAY);
    ClockFields(t / 1000 % SECONDS_PER_DAY);
  }

  /** A witness before the epoch: one millisecond earlier is read as 65535 milliseconds later. */
  lemma MinusOneTick()
    ensures SetTicks(-1) == DateTime(Date(1970, 1, 1), 0, 0, 0, 65535)
  {
    CivilEpoch();
    hide CivilFromDays;
    Int32Is(EPOCH_ADJUSTMENT_DAYS);
  }

  lemma TicksBelowLimit(x: DateTime)
    requires ValidDateTime(x)
    ensures TicksOf(x) < TickLimit()
    ensures x.date.year >= 1970 ==> 0 <= TicksOf(x)
  {
    DayNumberInYear(x.date);
    if x.date.year + 1 < 0x1_0000 { YearsMonotone(x.date.year, 0x1_0000); }
    if x.date.year > 1970 { YearsMonotone(1969, x.date.year); }
    assert DayNumber(x.date) + 1 <= DaysBeforeYear(0x1_0000);
  }

  lemma TicksInjective(x: DateTime, z: DateTime)
    requires ValidDateTime(x) && ValidDateTime(z) && TicksOf(x) == TicksOf(z)
    ensures x == z
  {
    var a := ((x.hour * 60 + x.min) * 60 + x.sec) * 1000 + x.msec;
    var b := ((z.hour * 60 + z.min) * 60 + z.sec) * 1000 + z.msec;
    DivModIs(TicksOf(x), TICKS_PER_DAY, DayNumber(x.date), a);
    DivModIs(TicksOf(z), TICKS_PER_DAY, DayNumber(z.date), b);
    DayNumberInjective(x.date, z.date);
  }

  lemma UnsignedShift(s: int)
    requires 1 <= s < 0x1_0000_0000_0000_0000
    ensures (0x1_0000_0000_0000_0000 - s) % SECONDS_PER_DAY != (-s) % SECONDS_PER_DAY
  {
  }

  lemma NegativeClock(t: int, s: int)
    requires Int64(t) && t == -1000 * s && s >= 1
    ensures var x := SetTicks(t);
            && ((x.hour * 60 + x.min) * 60 + x.sec) == (0x1_0000_0000_0000_0000 - s) % SECONDS_PER_DAY
            && x.msec == 0
  {
    hide CivilFromDays;
    assert ToUInt64(-s) == 0x1_0000_0000_0000_0000 - s;
    hide ToUInt64;
    ClockFields((0x1_0000_0000_0000_0000 - s) % SECONDS_PER_DAY);
  }

  lemma NegativeMsec(t: int)
    requires Int64(t) && t < 0 && t != -1000 * ((-t) / 1000)
    ensures SetTicks(t).msec >= 1000
  {
    hide CivilFromDays;
  }

  /** Before the epoch the detour through an unsigned 64-bit count shifts the time of day. */
  lemma SetTicksBeforeEpoch(t: int)
    requires Int64(t) && t < 0
    ensures ValidDateTime(SetTicks(t)) ==> TicksOf(SetTicks(t)) != t
  {
    hide CivilFromDays;
    hide DayNumber;
    hide SetTicks;
    var s := (-t) / 1000;
    if t == -1000 * s {
      var x := SetTicks(t);
      NegativeClock(t, s);
      UnsignedShift(s);
      var total := 0x1_0000_0000_0000_0000 - s;
      DivModIs(t, TICKS_PER_DAY, (-s) / SECONDS_PER_DAY, (-s) % SECONDS_PER_DAY * 1000);
      if ValidDateTime(x) {
        DivModIs(TicksOf(x), TICKS_PER_DAY, DayNumber(x.date), total % SECONDS_PER_DAY * 1000);
      }
    } else {
      NegativeMsec(t);
    }
  }

  /** set_ticks is exact precisely for ticks from the epoch to the last year 16 bits can hold. */
  lemma SetTicksExactIff(t: int)
    requires Int64(t)
    ensures ValidDateTime(SetTicks(t)) && TicksOf(SetTicks(t)) == t <==> 0 <= t < TickLimit()
  {
    hide SetTicks;
    if t < 0 {
      SetTicksBeforeEpoch(t);
    } else if t < TickLimit() {
      SetTicksInRange(t);
    } else if ValidDateTime(SetTicks(t)) {
      TicksBelowLimit(SetTicks(t));
    }
  }

  /** Every valid date-time from 1970 on is what set_ticks makes of its own tick count. */
  lemma SetTicksOnto(x: DateTime)
    requires ValidDateTime(x) && x.date.year >= 1970
    ensures Int64(TicksOf(x)) && SetTicks(TicksOf(x)) == x
  {
    hide SetTicks;
    TicksBelowLimit(x);
    SetTicksInRange(TicksOf(x));
    TicksInjective(SetTicks(TicksOf(x)), x);
  }

  /** One day later is the calendar's next day at the same time of day. */
  lemma SetTicksNextDay(t: int)
    requires 0 <= t && t + TICKS_PER_DAY < TickLimit()
    ensures Int64(t) && Int64(t + TICKS_PER_DAY) && ValidDate(SetTicks(t).date)
    ensures SetTicks(t + TICKS_PER_DAY) == SetTicks(t).(date := NextDay(SetTicks(t).date))
  {
    hide SetTicks;
    hide DayNumber;
    hide NextDay;
    hide TickLimit;
    SetTicksInRange(t);
    SetTicksInRange(t + TICKS_PER_DAY);
    DivModIs(t + TICKS_PER_DAY, TICKS_PER_DAY, t / TICKS_PER_DAY + 1, t % TICKS_PER_DAY);
    var x, z := SetTicks(t), SetTicks(t + TICKS_PER_DAY);
    assert z.date == NextDay(x.date);
    DayNumberStep(x.date);
    TicksInjective(z, x.(date := z.date));
  }
}
