/** The request signer's clock: `civil_from_days` turns a day number into a calendar date
    with one closed formula, `aws_date_time` prints a Unix time with it. */
module Calendar {
  import opened DayPlanIds
  import opened Numbers
  import opened Text

  datatype Date = Date(year: int, month: int, day: int)

  // ---- the formula, operator by operator -------------------------------------------------

  /** Integer division of `i64`: the quotient is truncated toward zero. */
  function TruncDiv(a: int, b: int): int
    requires b > 0
  {
    if a >= 0 then a / b else -((-a) / b)
  }

  function YearOfEra(doe: int): int
  {
    (doe - doe / 1460 + doe / 36524 - doe / 146096) / 365
  }

  function Era(z: int): int
  {
    TruncDiv(if z >= 0 then z else z - 146096, 146097)
  }

  /** Days of an era before its March-based year `yoe`. */
  function YearStart(yoe: int): int
  {
    365 * yoe + yoe / 4 - yoe / 100
  }

  /** Months counted from March: month `mp` starts on day (153 * mp + 2) / 5. */
  function MarchDate(y: int, doy: int): Date
  {
    var mp := (5 * doy + 2) / 153;
    var d := doy - (153 * mp + 2) / 5 + 1;
    var m := mp + (if mp < 10 then 3 else -9);
    Date(y + (if m <= 2 then 1 else 0), m, d)
  }

  /** The date of day `doe` of a 400-year era. */
  function EraDate(era: int, doe: int): Date
  {
    MarchDate(YearOfEra(doe) + era * 400, doe - YearStart(YearOfEra(doe)))
  }

  /** `civil_from_days` before the final narrowing of the year. */
  function WideCivilFromDays(daysSinceEpoch: int): Date
  {
    var z := daysSinceEpoch + 719468;
    var era := Era(z);
    var doe := z - era * 146097;
    EraDate(era, doe)
  }

  /** `civil_from_days` */
  function CivilFromDays(daysSinceEpoch: int): Date
  {
    var wide := WideCivilFromDays(daysSinceEpoch);
    wide.(year := AsI32(wide.year))
  }

  // ---- an independent day count -------------------------------------------------------------

  predicate ValidDate(date: Date)
  {
    1 <= date.month <= 12 && 1 <= date.day <= MaxDay(date.year, date.month)
  }

  /** The day after, by the month lengths and leap rule of service-date validation. */
  function NextDay(date: Date): Date
  {
    if date.day < MaxDay(date.year, date.month) then date.(day := date.day + 1)
    else if date.month < 12 then Date(date.year, date.month + 1, 1)
    else Date(date.year + 1, 1, 1)
  }

  function DaysBeforeMonth(year: int, month: int): nat
    requires 1 <= month <= 13
  {
    if month == 1 then 0 else DaysBeforeMonth(year, month - 1) + MaxDay(year, month - 1)
  }

  /** Days from the first of January of year 1 to the first of January of `year`. */
  function DaysBeforeYear(year: int): int
  {
    365 * (year - 1) + (year - 1) / 4 - (year - 1) / 100 + (year - 1) / 400
  }

  /** Days from 1970-01-01, counted by whole years, whole months and days. */
  function DaysFromCivil(date: Date): int
    requires 1 <= date.month <= 12
  {
    DaysBeforeYear(date.year) - DaysBeforeYear(1970) + DaysBeforeMonth(date.year, date.month) + date.day - 1
  }

  /** The year count grows by the length of each year. */
  lemma YearLength(year: int)
    ensures DaysBeforeYear(year + 1) - DaysBeforeYear(year) == (if IsLeapYear(year) then 366 else 365)
  {
    QuotientStep(year, 4);
    QuotientStep(year, 100);
    QuotientStep(year, 400);
    DivisibilityChain(year);
  }

  lemma DivisibilityChain(x: int)
    ensures x % 400 == 0 ==> x % 100 == 0
    ensures x % 100 == 0 ==> x % 4 == 0
  {
    if x % 400 == 0 {
      MultipleOfHundred(x / 400);
    }
    if x % 100 == 0 {
      MultipleOfFour(x / 100);
    }
  }

  lemma MultipleOfHundred(q: int)
    ensures (400 * q) % 100 == 0
  {
    assert (400 * q) == 100 * (4 * q);
  }

  lemma MultipleOfFour(q: int)
    ensures (100 * q) % 4 == 0
  {
    assert (100 * q) == 4 * (25 * q);
  }

  lemma QuotientStep(x: int, k: int)
    requires k == 4 || k == 100 || k == 400
    ensures x / k - (x - 1) / k == if x % k == 0 then 1 else 0
  {
  }

  lemma MonthTable(year: int)
    ensures var leap := if IsLeapYear(year) then 1 else 0;
      && DaysBeforeMonth(year, 1) == 0
      && DaysBeforeMonth(year, 2) == 31
      && DaysBeforeMonth(year, 3) == 59 + leap
      && DaysBeforeMonth(year, 4) == 90 + leap
      && DaysBeforeMonth(year, 5) == 120 + leap
      && DaysBeforeMonth(year, 6) == 151 + leap
      && DaysBeforeMonth(year, 7) == 181 + leap
      && DaysBeforeMonth(year, 8) == 212 + leap
      && DaysBeforeMonth(year, 9) == 243 + leap
      && DaysBeforeMonth(year, 10) == 273 + leap
      && DaysBeforeMonth(year, 11) == 304 + leap
      && DaysBeforeMonth(year, 12) == 334 + leap
      && DaysBeforeMonth(year, 13) == 365 + leap
  {
    assert DaysBeforeMonth(year, 3) == DaysBeforeMonth(year, 2) + MaxDay(year, 2);
    assert DaysBeforeMonth(year, 5) == DaysBeforeMonth(year, 4) + MaxDay(year, 4);
    assert DaysBeforeMonth(year, 7) == DaysBeforeMonth(year, 6) + MaxDay(year, 6);
    assert DaysBeforeMonth(year, 9) == DaysBeforeMonth(year, 8) + MaxDay(year, 8);
    assert DaysBeforeMonth(year, 11) == DaysBeforeMonth(year, 10) + MaxDay(year, 10);
    assert DaysBeforeMonth(year, 13) == DaysBeforeMonth(year, 12) + MaxDay(year, 12);
  }

  /** The count advances by one from each valid date to the next, which is again valid. */
  lemma CountOfNextDay(date: Date)
    requires ValidDate(date)
    ensures ValidDate(NextDay(date))
    ensures DaysFromCivil(NextDay(date)) == DaysFromCivil(date) + 1
  {
    YearLength(date.year);
    MonthTable(date.year);
    MonthTable(date.year + 1);
  }

  // ---- the formula is the calendar -------------------------------------------------------------

  lemma EraIsFloor(z: int)
    ensures 0 <= z - Era(z) * 146097 < 146097
  {
  }

  /** The March-based year `yoe` of an era ends in a leap February. */
  predicate EraYearEndsInLeap(yoe: int)
  {
    (yoe + 1) % 4 == 0 && ((yoe + 1) % 100 != 0 || yoe == 399)
  }

  /** A day of an era by century, four-year cycle, year of the cycle and day of the year. */
  lemma EraDigits(doe: int) returns (c: int, q: int, k: int, t: int)
    requires 0 <= doe < 146097
    ensures 0 <= c <= 3 && 0 <= q <= 24 && 0 <= k <= 3 && 0 <= t <= 365
    ensures doe == 36524 * c + 1461 * q + 365 * k + t
    ensures t == 365 ==> k == 3 && (q < 24 || c == 3)
  {
    c := if doe == 146096 then 3 else doe / 36524;
    var r := doe - 36524 * c;
    q := if r == 36524 then 24 else r / 1461;
    var s := r - 1461 * q;
    k := if s == 1460 then 3 else s / 365;
    t := s - 365 * k;
  }

  lemma YearOfEraOfDigits(doe: int, c: int, q: int, k: int, t: int)
    requires 0 <= c <= 3 && 0 <= q <= 24 && 0 <= k <= 3 && 0 <= t <= 365
    requires doe == 36524 * c + 1461 * q + 365 * k + t
    requires t == 365 ==> k == 3 && (q < 24 || c == 3)
    ensures YearOfEra(doe) == 100 * c + 4 * q + k
  {
    assert doe / 146096 == if doe == 146096 then 1 else 0;
    assert doe / 36524 == if doe == 146096 then 4 else c;
    assert doe / 1460 == 25 * c + q + (if 24 * c + q + 365 * k + t >= 1460 then 1 else 0);
  }

  /** Inside a 400-year era the quotient picks the March-based year of the day. */
  lemma YearOfEraBounds(doe: int)
    requires 0 <= doe < 146097
    ensures 0 <= YearOfEra(doe) < 400
    ensures 0 <= doe - YearStart(YearOfEra(doe)) <= (if EraYearEndsInLeap(YearOfEra(doe)) then 365 else 364)
  {
    var c, q, k, t := EraDigits(doe);
    YearOfEraOfDigits(doe, c, q, k, t);
    YearStartOfDigits(c, q, k);
  }

  lemma YearStartOfDigits(c: int, q: int, k: int)
    requires 0 <= c <= 3 && 0 <= q <= 24 && 0 <= k <= 3
    ensures YearStart(100 * c + 4 * q + k) == 36524 * c + 1461 * q + 365 * k
    ensures EraYearEndsInLeap(100 * c + 4 * q + k) <==> k == 3 && (q < 24 || c == 3)
  {
    var yoe := 100 * c + 4 * q + k;
    assert yoe / 4 == 25 * c + q && yoe / 100 == c;
  }

  lemma ShiftQuotients(m: int, a: int)
    ensures (400 * m + a) / 400 == m + a / 400 && (400 * m + a) % 400 == a % 400
    ensures (400 * m + a) / 100 == 4 * m + a / 100 && (400 * m + a) % 100 == a % 100
    ensures (400 * m + a) / 4 == 100 * m + a / 4 && (400 * m + a) % 4 == a % 4
  {
  }

  /** The year count at the start of March-based year `yoe` of an era. */
  lemma EraYears(era: int, yoe: int)
    requires 0 <= yoe < 400
    ensures DaysBeforeYear(era * 400 + yoe + 1) == era * 146097 + YearStart(yoe)
  {
    ShiftQuotients(era, yoe);
    assert (era * 400 + yoe + 1) - 1 == 400 * era + yoe;
  }

  lemma EraLeap(era: int, yoe: int)
    requires 0 <= yoe < 400
    ensures IsLeapYear(era * 400 + yoe + 1) <==> EraYearEndsInLeap(yoe)
  {
    ShiftQuotients(era, yoe + 1);
    assert era * 400 + yoe + 1 == 400 * era + (yoe + 1);
    DivisibilityChain(yoe + 1);
  }

  /** Day `doy` from March falls in month `mp` from March. */
  lemma MarchMonth(doy: int)
    requires 0 <= doy <= 365
    ensures var mp := (5 * doy + 2) / 153;
      0 <= mp <= 11 && (153 * mp + 2) / 5 <= doy < (153 * mp + 155) / 5
  {
  }

  lemma MarchMonthStart(y: int, mp: int)
    requires 0 <= mp <= 11
    ensures mp < 10 ==> DaysBeforeMonth(y, mp + 3) == (153 * mp + 2) / 5 + (if IsLeapYear(y) then 60 else 59)
    ensures mp >= 10 ==> DaysBeforeMonth(y + 1, mp - 9) + 306 == (153 * mp + 2) / 5
  {
    MonthTable(y);
    MonthTable(y + 1);
  }

  lemma MarchMonthLength(y: int, mp: int)
    requires 0 <= mp <= 10
    ensures (153 * mp + 155) / 5 - (153 * mp + 2) / 5 == if mp < 10 then MaxDay(y, mp + 3) else MaxDay(y + 1, mp - 9)
  {
  }

  lemma MarchDateCounts(y: int, doy: int)
    requires 0 <= doy <= (if IsLeapYear(y + 1) then 365 else 364)
    ensures ValidDate(MarchDate(y, doy))
    ensures DaysFromCivil(MarchDate(y, doy)) == DaysBeforeYear(y + 1) - 306 - DaysBeforeYear(1970) + doy
  {
    var mp := (5 * doy + 2) / 153;
    MarchMonth(doy);
    MarchMonthStart(y, mp);
    if mp <= 10 {
      MarchMonthLength(y, mp);
    }
    YearLength(y);
  }

  lemma EpochYear()
    ensures DaysBeforeYear(1970) == 719162
  {
  }

  lemma EraDateCounts(era: int, yoe: int, doy: int)
    requires 0 <= yoe < 400
    requires 0 <= doy <= (if EraYearEndsInLeap(yoe) then 365 else 364)
    ensures ValidDate(MarchDate(yoe + era * 400, doy))
    ensures DaysFromCivil(MarchDate(yoe + era * 400, doy)) == era * 146097 + YearStart(yoe) + doy - 719468
  {
    EraYears(era, yoe);
    EraLeap(era, yoe);
    MarchDateCounts(era * 400 + yoe, doy);
    EpochYear();
  }

  predicate CountsTo(date: Date, n: int)
  {
    ValidDate(date) && DaysFromCivil(date) == n
  }

  lemma MarchDateCountsTo(era: int, yoe: int, doy: int)
    requires 0 <= yoe < 400
    requires 0 <= doy <= (if EraYearEndsInLeap(yoe) then 365 else 364)
    ensures CountsTo(MarchDate(yoe + era * 400, doy), era * 146097 + YearStart(yoe) + doy - 719468)
  {
    EraDateCounts(era, yoe, doy);
  }

  /** The March-based year of a day of an era, and the day in it. */
  lemma DayOfEra(era: int, doe: int) returns (yoe: int, doy: int)
    requires 0 <= doe < 146097
    ensures 0 <= yoe < 400 && 0 <= doy <= (if EraYearEndsInLeap(yoe) then 365 else 364)
    ensures YearStart(yoe) + doy == doe && EraDate(era, doe) == MarchDate(yoe + era * 400, doy)
  {
    yoe, doy := YearOfEra(doe), doe - YearStart(YearOfEra(doe));
    YearOfEraBounds(doe);
  }

  lemma SameDateSameCount(a: Date, b: Date, n: int)
    requires a == b && CountsTo(a, n)
    ensures CountsTo(b, n)
  {
  }

  lemma EraDateIsCounted(era: int, doe: int)
    requires 0 <= doe < 146097
    ensures CountsTo(EraDate(era, doe), era * 146097 + doe - 719468)
  {
    var yoe, doy := DayOfEra(era, doe);
    MarchDateCountsTo(era, yoe, doy);
    SameDateSameCount(MarchDate(yoe + era * 400, doy), EraDate(era, doe), era * 146097 + doe - 719468);
  }

  /** The formula's date is valid and the independent count takes it back to the day number. */
  lemma CivilFromDaysCounts(n: int)
    ensures ValidDate(WideCivilFromDays(n))
    ensures DaysFromCivil(WideCivilFromDays(n)) == n
  {
    var era := Era(n + 719468);
    EraIsFloor(n + 719468);
    EraDateIsCounted(era, n + 719468 - era * 146097);
  }

  // ---- the count orders dates, so the formula is its inverse ------------------------------------

  predicate DateBefore(a: Date, b: Date)
  {
    a.year < b.year || (a.year == b.year && (a.month < b.month || (a.month == b.month && a.day < b.day)))
  }

  lemma {:induction false} MonthsInOrder(year: int, m1: int, m2: int)
    requires 1 <= m1 <= m2 <= 13
    ensures DaysBeforeMonth(year, m1) <= DaysBeforeMonth(year, m2)
    decreases m2
  {
    if m1 < m2 {
      MonthsInOrder(year, m1, m2 - 1);
    }
  }

  lemma {:induction false} YearsInOrder(y1: int, y2: int)
    requires y1 <= y2
    ensures DaysBeforeYear(y1) <= DaysBeforeYear(y2)
    decreases y2 - y1
  {
    if y1 < y2 {
      YearLength(y2 - 1);
      YearsInOrder(y1, y2 - 1);
    }
  }

  lemma DayWithinYear(date: Date)
    requires ValidDate(date)
    ensures 0 <= DaysFromCivil(date) - (DaysBeforeYear(date.year) - DaysBeforeYear(1970))
    ensures DaysFromCivil(date) < DaysBeforeYear(date.year + 1) - DaysBeforeYear(1970)
  {
    MonthsInOrder(date.year, date.month + 1, 13);
    MonthTable(date.year);
    YearLength(date.year);
  }

  /** Earlier dates have smaller counts. */
  lemma CountIsMonotone(a: Date, b: Date)
    requires ValidDate(a) && ValidDate(b) && DateBefore(a, b)
    ensures DaysFromCivil(a) < DaysFromCivil(b)
  {
    if a.year < b.year {
      DayWithinYear(a);
      DayWithinYear(b);
      YearsInOrder(a.year + 1, b.year);
    } else if a.month < b.month {
      MonthsInOrder(a.year, a.month + 1, b.month);
    }
  }

  lemma CountIsInjective(a: Date, b: Date)
    requires ValidDate(a) && ValidDate(b) && DaysFromCivil(a) == DaysFromCivil(b)
    ensures a == b
  {
    if DateBefore(a, b) {
      CountIsMonotone(a, b);
    } else if DateBefore(b, a) {
      CountIsMonotone(b, a);
    }
  }

  /** Every valid date is the formula's date of its own count. */
  lemma CivilFromDaysInverse(date: Date)
    requires ValidDate(date)
    ensures WideCivilFromDays(DaysFromCivil(date)) == date
  {
    CivilFromDaysCounts(DaysFromCivil(date));
    CountIsInjective(WideCivilFromDays(DaysFromCivil(date)), date);
  }

  /** Day 0 is 1970-01-01. */
  lemma DayZero()
    ensures CivilFromDays(0) == Date(1970, 1, 1)
  {
    assert DaysFromCivil(Date(1970, 1, 1)) == 0;
    CivilFromDaysInverse(Date(1970, 1, 1));
  }

  lemma SuccessorByCount(today: Date, next: Date)
    requires ValidDate(today) && ValidDate(next) && DaysFromCivil(next) == DaysFromCivil(today) + 1
    ensures next == NextDay(today)
  {
    CountOfNextDay(today);
    CountIsInjective(next, NextDay(today));
  }

  /** Day n + 1 is the calendar day after day n, for every n. */
  lemma CivilFromDaysIsTheCalendar(n: int)
    ensures WideCivilFromDays(n + 1) == NextDay(WideCivilFromDays(n))
  {
    CivilFromDaysCounts(n);
    CivilFromDaysCounts(n + 1);
    SuccessorByCount(WideCivilFromDays(n), WideCivilFromDays(n + 1));
  }

  lemma DatesInOrder(n1: int, n2: int)
    requires n1 < n2
    ensures DateBefore(WideCivilFromDays(n1), WideCivilFromDays(n2))
  {
    var a, b := WideCivilFromDays(n1), WideCivilFromDays(n2);
    CivilFromDaysCounts(n1);
    CivilFromDaysCounts(n2);
    if DateBefore(b, a) {
      CountIsMonotone(b, a);
    }
  }

  /** The narrowing to `i32` changes the date exactly when the year does not fit. */
  lemma NarrowingIsExact(n: int)
    ensures CivilFromDays(n) == WideCivilFromDays(n)
       <==> -0x8000_0000 <= WideCivilFromDays(n).year < 0x8000_0000
  {
  }

  // ---- printing -----------------------------------------------------------------------------------

  function Digit(n: nat): (c: char)
    requires n < 10
    ensures IsDigit(c) && c as int - '0' as int == n
  {
    '0' + n as char
  }

  function Decimal(n: nat): string
  {
    if n < 10 then [Digit(n)] else Decimal(n / 10) + [Digit(n % 10)]
  }

  function Zeros(k: nat): (r: string)
    ensures |r| == k && forall i :: 0 <= i < k ==> r[i] == '0'
  {
    if k == 0 then "" else "0" + Zeros(k - 1)
  }

  /** `{n:0width}`: the sign counts toward the width. */
  function Padded(n: int, width: nat): string
  {
    var digits := Decimal(if n < 0 then -n else n);
    var sign := if n < 0 then "-" else "";
    var used := |sign| + |digits|;
    sign + Zeros(if used < width then width - used else 0) + digits
  }

  /** The text `&date_time[..8]` the signer scopes its key with. */
  function DateStamp(date: Date): string
  {
    Padded(date.year, 4) + Padded(date.month, 2) + Padded(date.day, 2)
  }

  function ClockStamp(secondsOfDay: nat): string
  {
    Padded(secondsOfDay / 3600, 2) + Padded((secondsOfDay % 3600) / 60, 2) + Padded(secondsOfDay % 60, 2)
  }

  function Stamp(date: Date, secondsOfDay: nat): string
  {
    DateStamp(date) + "T" + ClockStamp(secondsOfDay) + "Z"
  }

  /** `aws_date_time` */
  function AwsDateTime(unixSeconds: nat): string
  {
    Stamp(CivilFromDays(unixSeconds / 86400), unixSeconds % 86400)
  }

  function Pow10(k: nat): nat
  {
    if k == 0 then 1 else 10 * Pow10(k - 1)
  }

  /** A number that fits prints to exactly `width` digits and reads back. */
  lemma {:induction false} PaddedReadsBack(n: nat, width: nat)
    requires 1 <= width && n < Pow10(width)
    ensures |Padded(n, width)| == width
    ensures AllDigits(Padded(n, width))
    ensures ParseDigits(Padded(n, width)) == n
  {
    DecimalReadsBack(n, width);
    var pad := width - |Decimal(n)|;
    PaddingReadsBack(pad, Decimal(n));
    assert Padded(n, width) == Zeros(pad) + Decimal(n);
  }

  lemma {:induction false} DecimalReadsBack(n: nat, width: nat)
    requires 1 <= width && n < Pow10(width)
    ensures 1 <= |Decimal(n)| <= width && AllDigits(Decimal(n)) && ParseDigits(Decimal(n)) == n
  {
    var s := Decimal(n);
    if n < 10 {
      assert s[..|s| - 1] == "";
    } else {
      TenthFits(n, Pow10(width - 1));
      DecimalReadsBack(n / 10, width - 1);
      assert s[..|s| - 1] == Decimal(n / 10);
    }
  }

  lemma TenthFits(n: nat, p: nat)
    requires n < 10 * p
    ensures n / 10 < p && n == 10 * (n / 10) + n % 10
  {
  }

  lemma {:induction false} PaddingReadsBack(k: nat, s: string)
    requires AllDigits(s)
    ensures |Zeros(k)| == k && AllDigits(Zeros(k) + s) && ParseDigits(Zeros(k) + s) == ParseDigits(s)
    decreases k, |s|
  {
    if s != "" {
      PaddingReadsBack(k, s[..|s| - 1]);
      var t := Zeros(k) + s;
      assert t[..|t| - 1] == Zeros(k) + s[..|s| - 1];
    } else if k > 0 {
      PaddingReadsBack(k - 1, "");
      var t := Zeros(k) + s;
      assert t[..|t| - 1] == Zeros(k - 1) + "";
    }
  }

  /** 10000-01-01T00:00:00Z, the first instant with a five-digit year. */
  const YEAR_10000: nat := 253402300800

  lemma FirstAndLastDay()
    ensures DaysFromCivil(Date(1970, 1, 1)) == 0 && DaysFromCivil(Date(9999, 12, 31)) == 2932896
    ensures ValidDate(Date(1970, 1, 1)) && ValidDate(Date(9999, 12, 31))
  {
    MonthTable(9999);
    MonthTable(1970);
    assert DaysBeforeYear(9999) == 3651694 && DaysBeforeYear(1970) == 719162;
  }

  /** The count keeps the year between those of two days around it. */
  lemma YearIsBetween(first: Date, date: Date, last: Date)
    requires ValidDate(first) && ValidDate(date) && ValidDate(last)
    requires DaysFromCivil(first) <= DaysFromCivil(date) <= DaysFromCivil(last)
    ensures first.year <= date.year <= last.year
  {
    if date.year > last.year {
      CountIsMonotone(last, date);
    } else if date.year < first.year {
      CountIsMonotone(date, first);
    }
  }

  /** The dates before that instant have years of at most four digits. */
  lemma DateFits(n: nat)
    requires n * 86400 < YEAR_10000
    ensures CivilFromDays(n) == WideCivilFromDays(n) && ValidDate(CivilFromDays(n))
    ensures 1970 <= CivilFromDays(n).year < 10000 && CivilFromDays(n).day < 100
  {
    CivilFromDaysCounts(n);
    FirstAndLastDay();
    YearIsBetween(Date(1970, 1, 1), WideCivilFromDays(n), Date(9999, 12, 31));
    NarrowingIsExact(n);
  }

  /** The instant a printed date-time denotes, read field by field. */
  function UnixSecondsOf(stamp: string): int
    requires |stamp| == 16
    requires AllDigits(stamp[..4]) && AllDigits(stamp[4..6]) && AllDigits(stamp[6..8])
    requires AllDigits(stamp[9..11]) && AllDigits(stamp[11..13]) && AllDigits(stamp[13..15])
    requires 1 <= ParseDigits(stamp[4..6]) <= 12
  {
    DaysFromCivil(Date(ParseDigits(stamp[..4]), ParseDigits(stamp[4..6]), ParseDigits(stamp[6..8]))) * 86400
    + ParseDigits(stamp[9..11]) * 3600 + ParseDigits(stamp[11..13]) * 60 + ParseDigits(stamp[13..15])
  }

  lemma MinutesAndSeconds(r: nat)
    requires r < 86400
    ensures 0 <= r / 3600 < 24 && 0 <= (r % 3600) / 60 < 60
    ensures r == (r / 3600) * 3600 + ((r % 3600) / 60) * 60 + r % 60
  {
    assert r % 3600 == r - (r / 3600) * 3600;
    assert (r % 3600) % 60 == r % 60 by {
      assert r == 60 * (60 * (r / 3600)) + r % 3600;
    }
  }

  lemma StampFields(d: Date, r: nat)
    ensures Stamp(d, r)
         == Padded(d.year, 4) + Padded(d.month, 2) + Padded(d.day, 2) + "T"
          + Padded(r / 3600, 2) + Padded((r % 3600) / 60, 2) + Padded(r % 60, 2) + "Z"
  {
    assert Stamp(d, r)
        == Padded(d.year, 4) + Padded(d.month, 2) + Padded(d.day, 2) + "T"
         + Padded(r / 3600, 2) + Padded((r % 3600) / 60, 2) + Padded(r % 60, 2) + "Z";
  }

  /** A date and a second of the day print to 16 characters whose fields read back. */
  lemma StampReadsBack(d: Date, r: nat)
    requires 0 <= d.year < 10000 && 1 <= d.month <= 12 && 1 <= d.day < 100 && r < 86400
    ensures var t := Stamp(d, r);
      && |t| == 16 && t[..8] == DateStamp(d) && t[8] == 'T' && t[15] == 'Z'
      && AllDigits(t[..4]) && AllDigits(t[4..6]) && AllDigits(t[6..8])
      && AllDigits(t[9..11]) && AllDigits(t[11..13]) && AllDigits(t[13..15])
      && ParseDigits(t[..4]) == d.year && ParseDigits(t[4..6]) == d.month && ParseDigits(t[6..8]) == d.day
      && ParseDigits(t[9..11]) == r / 3600
      && ParseDigits(t[11..13]) == (r % 3600) / 60
      && ParseDigits(t[13..15]) == r % 60
  {
    assert Pow10(4) == 10000 && Pow10(2) == 100;
    MinutesAndSeconds(r);
    PaddedReadsBack(d.year, 4);
    PaddedReadsBack(d.month, 2);
    PaddedReadsBack(d.day, 2);
    PaddedReadsBack(r / 3600, 2);
    PaddedReadsBack((r % 3600) / 60, 2);
    PaddedReadsBack(r % 60, 2);
    StampSlices(Padded(d.year, 4), Padded(d.month, 2), Padded(d.day, 2),
                Padded(r / 3600, 2), Padded((r % 3600) / 60, 2), Padded(r % 60, 2));
    StampFields(d, r);
  }

  /** Before year 10000 the text has 16 characters, starts with the date stamp, and denotes
      exactly the second it was printed from. */
  lemma AwsDateTimeReadsBack(unixSeconds: nat)
    requires unixSeconds < YEAR_10000
    ensures var t := AwsDateTime(unixSeconds);
      && |t| == 16 && t[8] == 'T' && t[15] == 'Z'
      && t[..8] == DateStamp(CivilFromDays(unixSeconds / 86400))
      && AllDigits(t[..4]) && AllDigits(t[4..6]) && AllDigits(t[6..8])
      && AllDigits(t[9..11]) && AllDigits(t[11..13]) && AllDigits(t[13..15])
      && 1 <= ParseDigits(t[4..6]) <= 12
      && UnixSecondsOf(t) == unixSeconds
  {
    DateFits(unixSeconds / 86400);
    MinutesAndSeconds(unixSeconds % 86400);
    StampReadsBack(CivilFromDays(unixSeconds / 86400), unixSeconds % 86400);
    CivilFromDaysCounts(unixSeconds / 86400);
  }

  lemma StampSlices(y: string, mo: string, d: string, h: string, mi: string, s: string)
    requires |y| == 4 && |mo| == |d| == |h| == |mi| == |s| == 2
    ensures var t := y + mo + d + "T" + h + mi + s + "Z";
      && |t| == 16 && t[..8] == y + mo + d && t[8] == 'T' && t[15] == 'Z'
      && t[..4] == y && t[4..6] == mo && t[6..8] == d
      && t[9..11] == h && t[11..13] == mi && t[13..15] == s
  {
  }

  // ---- service dates ------------------------------------------------------------------------------

  lemma SplitDate(y: string, m: string, d: string)
    requires AllDigits(y) && AllDigits(m) && AllDigits(d)
    ensures Split(y + "-" + m + "-" + d, '-') == [y, m, d]
  {
    assert '-' !in y && '-' !in m && '-' !in d by {
      assert forall i :: 0 <= i < |y| ==> y[i] != '-';
    }
    assert y + "-" + m + "-" + d == y + ['-'] + (m + ['-'] + d);
    SplitAtFirst(y, '-', m + ['-'] + d);
    SplitAtFirst(m, '-', d);
    SplitSeparatorFree(d, '-');
  }

  lemma SegmentsValidIff(serviceDate: string, y: string, m: string, d: string)
    requires Split(serviceDate, '-') == [y, m, d] && |y| == 4 && |m| == 2 && |d| == 2
    requires AllDigits(y) && AllDigits(m) && AllDigits(d)
    ensures IsValidServiceDate(serviceDate)
       <==> ParseDigits(y) >= 1 && ValidDate(Date(ParseDigits(y), ParseDigits(m), ParseDigits(d)))
  {
    MonthHasDays(ParseDigits(y), ParseDigits(m));
  }

  lemma MonthHasDays(year: int, month: int)
    ensures MaxDay(year, month) >= 1 <==> 1 <= month <= 12
  {
  }

  /** A printed date is a valid service date exactly when it is a date of the calendar, from year 1 on. */
  lemma ServiceDateIff(year: nat, month: nat, day: nat)
    requires year < 10000 && month < 100 && day < 100
    ensures IsValidServiceDate(Padded(year, 4) + "-" + Padded(month, 2) + "-" + Padded(day, 2))
       <==> year >= 1 && ValidDate(Date(year, month, day))
  {
    assert Pow10(4) == 10000 && Pow10(2) == 100;
    PaddedReadsBack(year, 4);
    PaddedReadsBack(month, 2);
    PaddedReadsBack(day, 2);
    SplitDate(Padded(year, 4), Padded(month, 2), Padded(day, 2));
    SegmentsValidIff(Padded(year, 4) + "-" + Padded(month, 2) + "-" + Padded(day, 2), Padded(year, 4),
                     Padded(month, 2), Padded(day, 2));
  }

  /** Every valid service date has this shape. */
  lemma ServiceDateShape(serviceDate: string)
    requires IsValidServiceDate(serviceDate)
    ensures |serviceDate| == 10 && serviceDate[4] == '-' && serviceDate[7] == '-'
    ensures AllDigits(serviceDate[..4]) && AllDigits(serviceDate[5..7]) && AllDigits(serviceDate[8..])
  {
    ThreePieces(serviceDate);
    var p := Split(serviceDate, '-');
    assert serviceDate[..4] == p[0] && serviceDate[5..7] == p[1] && serviceDate[8..] == p[2];
  }

  // ---- printed times sort like the times ---------------------------------------------------------

  lemma {:induction false} LexPrefix(p: string, a: string, b: string)
    requires Lex(a, b)
    ensures Lex(p + a, p + b)
  {
    if p != "" {
      LexPrefix(p[1..], a, b);
      assert (p + a)[1..] == p[1..] + a && (p + b)[1..] == p[1..] + b;
    } else {
      assert p + a == a && p + b == b;
    }
  }

  lemma {:induction false} LexExtend(a: string, b: string, u: string, v: string)
    requires |a| == |b| && Lex(a, b)
    ensures Lex(a + u, b + v)
  {
    assert (a + u)[1..] == a[1..] + u && (b + v)[1..] == b[1..] + v;
    if a[0] == b[0] {
      LexExtend(a[1..], b[1..], u, v);
    }
  }

  /** Equal-length digit strings are ordered like the numbers they denote. */
  lemma {:induction false} DigitsInOrder(a: string, b: string)
    requires |a| == |b| && AllDigits(a) && AllDigits(b) && ParseDigits(a) < ParseDigits(b)
    ensures Lex(a, b)
  {
    if a != "" {
      var a', b' := a[..|a| - 1], b[..|b| - 1];
      var la, lb := a[|a| - 1..], b[|b| - 1..];
      assert a == a' + la && b == b' + lb;
      if ParseDigits(a') < ParseDigits(b') {
        DigitsInOrder(a', b');
        LexExtend(a', b', la, lb);
      } else {
        DigitsAreFaithful(a', b');
        LexPrefix(a', la, lb);
      }
    }
  }

  lemma {:induction false} DigitsAreFaithful(a: string, b: string)
    requires |a| == |b| && AllDigits(a) && AllDigits(b) && ParseDigits(a) == ParseDigits(b)
    ensures a == b
  {
    if a != "" {
      var a', b' := a[..|a| - 1], b[..|b| - 1];
      DigitsAreFaithful(a', b');
      assert a == a' + [a[|a| - 1]] && b == b' + [b[|b| - 1]];
    }
  }

  lemma TimesTen(x: nat, p: nat)
    ensures x * (10 * p) == 10 * (x * p)
  {
  }

  lemma {:induction false} ParseConcat(a: string, b: string)
    requires AllDigits(a) && AllDigits(b)
    ensures AllDigits(a + b) && ParseDigits(a + b) == ParseDigits(a) * Pow10(|b|) + ParseDigits(b)
  {
    if b == "" {
      assert a + b == a;
    } else {
      var b' := b[..|b| - 1];
      ParseConcat(a, b');
      assert (a + b)[..|a + b| - 1] == a + b';
      TimesTen(ParseDigits(a), Pow10(|b'|));
    }
  }

  /** Three digit fields in a row compare by their values, first field first. */
  lemma FieldsInOrder(a1: nat, a2: nat, a3: nat, b1: nat, b2: nat, b3: nat, width: nat)
    requires 2 <= width <= 4 && a1 < Pow10(width) && b1 < Pow10(width)
    requires a2 < 100 && a3 < 100 && b2 < 100 && b3 < 100
    requires a1 < b1 || (a1 == b1 && (a2 < b2 || (a2 == b2 && a3 < b3)))
    ensures Lex(Padded(a1, width) + Padded(a2, 2) + Padded(a3, 2), Padded(b1, width) + Padded(b2, 2) + Padded(b3, 2))
  {
    assert Pow10(2) == 100;
    PaddedReadsBack(a1, width);
    PaddedReadsBack(a2, 2);
    PaddedReadsBack(a3, 2);
    PaddedReadsBack(b1, width);
    PaddedReadsBack(b2, 2);
    PaddedReadsBack(b3, 2);
    ParseConcat(Padded(a1, width), Padded(a2, 2));
    ParseConcat(Padded(a1, width) + Padded(a2, 2), Padded(a3, 2));
    ParseConcat(Padded(b1, width), Padded(b2, 2));
    ParseConcat(Padded(b1, width) + Padded(b2, 2), Padded(b3, 2));
    DigitsInOrder(Padded(a1, width) + Padded(a2, 2) + Padded(a3, 2), Padded(b1, width) + Padded(b2, 2) + Padded(b3, 2));
  }

  lemma ClockInOrder(r1: nat, r2: nat)
    requires r1 < r2 < 86400
    ensures Lex(ClockStamp(r1), ClockStamp(r2))
    ensures |ClockStamp(r1)| == |ClockStamp(r2)|
  {
    MinutesAndSeconds(r1);
    MinutesAndSeconds(r2);
    assert Pow10(2) == 100;
    FieldsInOrder(r1 / 3600, (r1 % 3600) / 60, r1 % 60, r2 / 3600, (r2 % 3600) / 60, r2 % 60, 2);
    PaddedReadsBack(r1 / 3600, 2);
    PaddedReadsBack((r1 % 3600) / 60, 2);
    PaddedReadsBack(r1 % 60, 2);
    PaddedReadsBack(r2 / 3600, 2);
    PaddedReadsBack((r2 % 3600) / 60, 2);
    PaddedReadsBack(r2 % 60, 2);
  }

  lemma LaterDay(d1: Date, d2: Date, r1: nat, r2: nat)
    requires 0 <= d1.year < 10000 && 1 <= d1.month <= 12 && 1 <= d1.day < 100 && r1 < 86400
    requires 0 <= d2.year < 10000 && 1 <= d2.month <= 12 && 1 <= d2.day < 100 && r2 < 86400
    requires DateBefore(d1, d2)
    ensures Lex(Stamp(d1, r1), Stamp(d2, r2))
  {
    assert Pow10(4) == 10000;
    FieldsInOrder(d1.year, d1.month, d1.day, d2.year, d2.month, d2.day, 4);
    StampReadsBack(d1, r1);
    StampReadsBack(d2, r2);
    LexStamp(DateStamp(d1), DateStamp(d2), ClockStamp(r1), ClockStamp(r2));
  }

  lemma LexStamp(p1: string, p2: string, c1: string, c2: string)
    requires |p1| == |p2| && Lex(p1, p2)
    ensures Lex(p1 + "T" + c1 + "Z", p2 + "T" + c2 + "Z")
  {
    LexExtend(p1, p2, "T" + c1 + "Z", "T" + c2 + "Z");
    assert p1 + "T" + c1 + "Z" == p1 + ("T" + c1 + "Z");
    assert p2 + "T" + c2 + "Z" == p2 + ("T" + c2 + "Z");
  }

  lemma LaterOnTheDay(d: Date, r1: nat, r2: nat)
    requires r1 < r2 < 86400
    ensures Lex(Stamp(d, r1), Stamp(d, r2))
  {
    ClockInOrder(r1, r2);
    LexPrefix(DateStamp(d) + "T", ClockStamp(r1), ClockStamp(r2));
    LexExtend(DateStamp(d) + "T" + ClockStamp(r1), DateStamp(d) + "T" + ClockStamp(r2), "Z", "Z");
  }

  lemma LaterSecond(n1: nat, n2: nat, r1: nat, r2: nat)
    requires n1 < n2 || (n1 == n2 && r1 < r2)
    requires n1 * 86400 + r1 < YEAR_10000 && n2 * 86400 + r2 < YEAR_10000 && r1 < 86400 && r2 < 86400
    ensures Lex(Stamp(CivilFromDays(n1), r1), Stamp(CivilFromDays(n2), r2))
  {
    if n1 < n2 {
      DatesInOrder(n1, n2);
      DateFits(n1);
      DateFits(n2);
      LaterDay(CivilFromDays(n1), CivilFromDays(n2), r1, r2);
    } else {
      LaterOnTheDay(CivilFromDays(n1), r1, r2);
    }
  }

  /** Before year 10000 a later second always prints to a strictly greater text. */
  lemma AwsDateTimeInOrder(s1: nat, s2: nat)
    requires s1 < s2 < YEAR_10000
    ensures Lex(AwsDateTime(s1), AwsDateTime(s2))
  {
    LaterSecond(s1 / 86400, s2 / 86400, s1 % 86400, s2 % 86400);
  }
}
