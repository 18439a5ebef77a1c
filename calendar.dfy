/** The calendar codec of `TimerHandle`: (month, day) <-> day of year on a fixed
    calendar of 366 days in which February always has 29 days. */
module Calendar {
  import opened Wrappers

  const DAYS := 366
  const MONTHS := 12

  /** The `IllegalArgumentException` thrown for a month outside 1..12. */
  datatype CalendarError = MonthOutOfRange

  /** Number of days of `month` in the fixed leap-year calendar. */
  function MonthLength(month: int): int {
    if month == 2 then 29
    else if month == 4 || month == 6 || month == 9 || month == 11 then 30
    else 31
  }

  /** Reference definition: the days of all the months before `month`, summed. */
  function DaysBefore(month: int): int
    decreases month
  {
    if month <= 1 then 0 else DaysBefore(month - 1) + MonthLength(month - 1)
  }

  /** A date that exists in the fixed leap-year calendar. */
  predicate ValidDate(month: int, day: int) {
    1 <= month <= MONTHS && 1 <= day <= MonthLength(month)
  }

  /** Java's narrowing cast `(short) x`: keep the low 16 bits, two's complement. */
  function ToShort(x: int): (r: int)
    ensures -0x8000 <= r < 0x8000
    ensures -0x8000 <= x < 0x8000 ==> r == x
    ensures (x - r) % 0x1_0000 == 0
  {
    (x + 0x8000) % 0x1_0000 - 0x8000
  }

  lemma {:induction false} DaysBeforeIncreasing(i: int, j: int)
    requires 1 <= i < j
    ensures DaysBefore(i) < DaysBefore(j)
    decreases j - i
  {
    if i + 1 < j {
      DaysBeforeIncreasing(i, j - 1);
    }
  }

  /** `getDaysReachMonth`: the table of days before each month; throws for any
      other month. */
  function DaysReachMonth(month: int): (r: Result<int, CalendarError>)
    ensures r.Success? <==> 1 <= month <= MONTHS
    ensures r.Success? ==> r.value == DaysBefore(month)
  {
    match month
    case 1 => Success(0)
    case 2 => Success(31)
    case 3 => Success(31 + 29)
    case 4 => Success(31 + 29 + 31)
    case 5 => Success(31 + 29 + 31 + 30)
    case 6 => Success(31 + 29 + 31 + 30 + 31)
    case 7 => Success(31 + 29 + 31 + 30 + 31 + 30)
    case 8 => Success(31 + 29 + 31 + 30 + 31 + 30 + 31)
    case 9 => Success(31 + 29 + 31 + 30 + 31 + 30 + 31 + 31)
    case 10 => Success(31 + 29 + 31 + 30 + 31 + 30 + 31 + 31 + 30)
    case 11 => Success(31 + 29 + 31 + 30 + 31 + 30 + 31 + 31 + 30 + 31)
    case 12 => Success(31 + 29 + 31 + 30 + 31 + 30 + 31 + 31 + 30 + 31 + 30)
    case _ => Failure(MonthOutOfRange)
  }

  /** `getDateOfYear`: days before the month plus the day, narrowed to a short.
      Every valid date lands in 1..366, and distinct valid dates land apart. */
  function DateOfYear(month: int, date: int): (r: Result<int, CalendarError>)
    ensures r.Success? <==> 1 <= month <= MONTHS
    ensures ValidDate(month, date) ==> r == Success(DaysBefore(month) + date) && 1 <= r.value <= DAYS
  {
    match DaysReachMonth(month)
    case Success(reach) => Success(ToShort(reach + date))
    case Failure(e) => Failure(e)
  }

  /** The three boundary dates of the calendar. */
  lemma CalendarEndpoints()
    ensures DateOfYear(1, 1) == Success(1)
    ensures DateOfYear(2, 29) == Success(60)
    ensures DateOfYear(12, 31) == Success(DAYS)
    ensures DaysBefore(MONTHS + 1) == DAYS
  {
    assert DaysBefore(12) == 335;
  }

  /** The month whose days contain day-of-year `b`, found by scanning from
      `month` down to January (an independent reference for the ascending scan
      of `getBirthday`). */
  function MonthScanDown(b: int, month: int): (m: int)
    requires 1 <= month <= MONTHS
    ensures 1 <= m <= month
    decreases month
  {
    if month == 1 || DaysBefore(month) < b then month else MonthScanDown(b, month - 1)
  }

  /** Reference decoding of a day of year into (month, day). */
  function MonthAndDay(b: int): (int, int) {
    var m := MonthScanDown(b, MONTHS);
    (m, b - DaysBefore(m))
  }

  /** What the downward scan finds: the month starts before `b` (or is January)
      and the next one starts at or after `b` (or it is December). */
  lemma {:induction false} MonthScanDownBounds(b: int, month: int)
    requires 1 <= month <= MONTHS
    ensures var m := MonthScanDown(b, month);
      (m == 1 || DaysBefore(m) < b) && (m == month || b <= DaysBefore(m + 1))
    decreases month
  {
    if month > 1 && DaysBefore(month) >= b {
      MonthScanDownBounds(b, month - 1);
    }
  }

  /** The month bracketing `b` is unique. */
  lemma MonthOfUnique(b: int, m: int)
    requires 1 <= m <= MONTHS
    requires m == 1 || DaysBefore(m) < b
    requires m == MONTHS || b <= DaysBefore(m + 1)
    ensures MonthAndDay(b) == (m, b - DaysBefore(m))
  {
    var m' := MonthScanDown(b, MONTHS);
    MonthScanDownBounds(b, MONTHS);
    if m' < m {
      if m' + 1 < m { DaysBeforeIncreasing(m' + 1, m); }
    } else if m < m' {
      if m + 1 < m' { DaysBeforeIncreasing(m + 1, m'); }
    }
  }

  /** Round trip: decoding the encoding of a valid date gives the date back. */
  lemma DecodeEncode(month: int, day: int)
    requires ValidDate(month, day)
    ensures MonthAndDay(DateOfYear(month, day).value) == (month, day)
  {
    if 1 < month { DaysBeforeIncreasing(month - 1, month); }
    MonthOfUnique(DaysBefore(month) + day, month);
  }

  /** Round trip: every day of year 1..366 decodes to a valid date that encodes
      back to it. */
  lemma EncodeDecode(b: int)
    requires 1 <= b <= DAYS
    ensures ValidDate(MonthAndDay(b).0, MonthAndDay(b).1)
    ensures DateOfYear(MonthAndDay(b).0, MonthAndDay(b).1) == Success(b)
  {
    MonthScanDownBounds(b, MONTHS);
  }

  /** The decode loop of `getBirthday`: scan months 2..12 for the first whose
      days-before reach `birthday`; the month before it holds the day, and
      December holds whatever no threshold reaches. */
  method DecodeDayOfYear(birthday: int) returns (month: int, date: int)
    ensures (month, date) == MonthAndDay(birthday)
    ensures 1 <= birthday <= DAYS ==> ValidDate(month, date) && DateOfYear(month, date) == Success(birthday)
  {
    var daysReachLastMonth := 0;
    var m := 2;
    while m <= MONTHS
      invariant 2 <= m <= MONTHS + 1
      invariant daysReachLastMonth == DaysBefore(m - 1)
      invariant m > 2 ==> DaysBefore(m - 1) < birthday
    {
      var daysReachThisMonth := DaysReachMonth(m).value;
      if daysReachThisMonth >= birthday {
        MonthOfUnique(birthday, m - 1);
        if 1 <= birthday <= DAYS { EncodeDecode(birthday); }
        return m - 1, birthday - daysReachLastMonth;
      }
      daysReachLastMonth := daysReachThisMonth;
      m := m + 1;
    }
    MonthOfUnique(birthday, MONTHS);
    if 1 <= birthday <= DAYS { EncodeDecode(birthday); }
    return MONTHS, birthday - daysReachLastMonth;
  }
}
