/**
 * Proleptic Gregorian calendar dates as Python's `datetime` handles them:
 * years 1 to 9999, day numbers as `date.toordinal()` (0001-01-01 is day 1)
 * and weekdays as `date.weekday()` (Monday is 0, Sunday is 6).
 */
module Calendar {

  import opened Wrappers

  /** A date in the month-day-year order of the "%m-%d-%Y" format. */
  datatype Date = Date(month: int, day: int, year: int)

  /** The last date `datetime` can represent. */
  const LastDate := Date(12, 31, 9999)

  const Monday := 0
  const Sunday := 6

  predicate IsLeapYear(y: int)
  {
    y % 4 == 0 && (y % 100 != 0 || y % 400 == 0)
  }

  function DaysInYear(y: int): int
  {
    if IsLeapYear(y) then 366 else 365
  }

  function DaysInMonth(y: int, m: int): int
    requires 1 <= m <= 12
  {
    if m == 2 then (if IsLeapYear(y) then 29 else 28)
    else if m == 4 || m == 6 || m == 9 || m == 11 then 30
    else 31
  }

  /** A date that `strptime` would accept. */
  predicate IsValid(d: Date)
  {
    1 <= d.year <= 9999 && 1 <= d.month <= 12 && 1 <= d.day <= DaysInMonth(d.year, d.month)
  }

  /** Days in the years before `y`. */
  function DaysBeforeYear(y: int): int
    requires y >= 1
  {
    var p := y - 1;
    365 * p + p / 4 - p / 100 + p / 400
  }

  /** Days in the months of year `y` before month `m`. */
  function DaysBeforeMonth(y: int, m: int): int
    requires 1 <= m <= 12
  {
    [0, 31, 59, 90, 120, 151, 181, 212, 243, 273, 304, 334][m - 1]
      + (if m > 2 && IsLeapYear(y) then 1 else 0)
  }

  /** The day number of a date, counted from 0001-01-01 as day 1. */
  function Ordinal(d: Date): int
    requires IsValid(d)
  {
    DaysBeforeYear(d.year) + DaysBeforeMonth(d.year, d.month) + d.day
  }

  /** `date.weekday()`. */
  function Weekday(d: Date): (w: int)
    requires IsValid(d)
    ensures 0 <= w < 7
  {
    (Ordinal(d) + 6) % 7
  }

  predicate IsSunday(d: Date)
    requires IsValid(d)
  {
    Weekday(d) == Sunday
  }

  /** Floor division by a positive constant `k` grows by one exactly at multiples of `k`. */
  lemma DivStep(p: int, k: int)
    requires p >= 0 && (k == 4 || k == 100 || k == 400)
    ensures (p + 1) / k == p / k + (if (p + 1) % k == 0 then 1 else 0)
  {
    var q, r := p / k, p % k;
    assert p == k * q + r && 0 <= r < k;
    if r + 1 < k {
      assert p + 1 == k * q + (r + 1);
    } else {
      assert p + 1 == k * (q + 1);
    }
  }

  /** A multiple of `k * m` is a multiple of `k`, for the divisors of the leap-year rule. */
  lemma MultipleOfLarger(y: int, k: int, m: int)
    requires (k == 100 && m == 4) || (k == 4 && m == 25)
    requires y % (k * m) == 0
    ensures y % k == 0
  {
    var q := y / (k * m);
    assert y == (k * m) * q;
    var j := m * q;
    assert y == k * j;
  }

  lemma DaysBeforeYearStep(y: int)
    requires y >= 1
    ensures DaysBeforeYear(y + 1) == DaysBeforeYear(y) + DaysInYear(y)
  {
    var p := y - 1;
    DivStep(p, 4);
    DivStep(p, 100);
    DivStep(p, 400);
    if y % 400 == 0 {
      MultipleOfLarger(y, 100, 4);
    }
    if y % 100 == 0 {
      MultipleOfLarger(y, 4, 25);
    }
    var a := if y % 4 == 0 then 1 else 0;
    var b := if y % 100 == 0 then 1 else 0;
    var c := if y % 400 == 0 then 1 else 0;
    assert DaysBeforeYear(y + 1) == DaysBeforeYear(y) + 365 + a - b + c;
    assert a - b + c == (if IsLeapYear(y) then 1 else 0);
  }

  lemma DaysBeforeMonthStep(y: int, m: int)
    requires 1 <= m < 12
    ensures DaysBeforeMonth(y, m + 1) == DaysBeforeMonth(y, m) + DaysInMonth(y, m)
  {
  }

  lemma DaysInYearEnd(y: int)
    ensures DaysBeforeMonth(y, 12) + DaysInMonth(y, 12) == DaysInYear(y)
  {
  }

  /** `date + timedelta(days=1)`: the next calendar date, one day number later.
      (After `LastDate` it leaves the representable range.) */
  function NextDay(d: Date): (n: Date)
    requires IsValid(d)
    ensures d != LastDate ==> IsValid(n) && Ordinal(n) == Ordinal(d) + 1
  {
    if d.day < DaysInMonth(d.year, d.month) then
      Date(d.month, d.day + 1, d.year)
    else if d.month < 12 then
      DaysBeforeMonthStep(d.year, d.month);
      Date(d.month + 1, 1, d.year)
    else
      DaysBeforeYearStep(d.year);
      DaysInYearEnd(d.year);
      Date(1, 1, d.year + 1)
  }

  /** 9999-12-31 is a Friday, so the day after a Sunday always exists. */
  lemma LastDateIsFriday()
    ensures IsValid(LastDate) && Weekday(LastDate) == 4
  {
  }

  /** The last representable date is not a Sunday. */
  lemma SundayIsNotLast(d: Date)
    requires IsValid(d) && IsSunday(d)
    ensures d != LastDate
  {
    LastDateIsFriday();
  }

  /** The weekday advances by one from a date to the next. */
  lemma NextDayWeekday(d: Date)
    requires IsValid(d) && d != LastDate
    ensures IsValid(NextDay(d)) && Weekday(NextDay(d)) == (Weekday(d) + 1) % 7
  {
    ModSevenStep(Ordinal(d) + 6);
  }

  /** Counting one further moves the remainder modulo 7 one further, round the week. */
  lemma ModSevenStep(x: int)
    ensures (x + 1) % 7 == (x % 7 + 1) % 7
  {
    var q, r := x / 7, x % 7;
    assert x == 7 * q + r && 0 <= r < 7;
    if r < 6 {
      assert x + 1 == 7 * q + (r + 1);
    } else {
      assert x + 1 == 7 * (q + 1);
    }
  }

  /** The day after a Sunday is a Monday. */
  lemma SundayThenMonday(d: Date)
    requires IsValid(d) && IsSunday(d)
    ensures d != LastDate && IsValid(NextDay(d)) && Weekday(NextDay(d)) == Monday
  {
    SundayIsNotLast(d);
    NextDayWeekday(d);
  }

  /** The day numbers of November 2025, which the dated examples use. */
  lemma November2025(d: int)
    requires 1 <= d <= 30
    ensures IsValid(Date(11, d, 2025)) && Ordinal(Date(11, d, 2025)) == 739555 + d
  {
  }

  /** The day after the Sunday 11-16-2025 is the Monday 11-17-2025. */
  lemma SundayExample()
    ensures IsValid(Date(11, 16, 2025)) && IsSunday(Date(11, 16, 2025))
    ensures NextDay(Date(11, 16, 2025)) == Date(11, 17, 2025)
    ensures Weekday(Date(11, 17, 2025)) == Monday
  {
  }

  /** One decimal digit as a character. */
  function DigitChar(n: int): char
    requires 0 <= n < 10
  {
    ('0' as int + n) as char
  }

  predicate IsDigit(c: char)
  {
    '0' <= c <= '9'
  }

  /** The value of a decimal digit character. */
  function DigitValue(c: char): (r: int)
    requires IsDigit(c)
    ensures 0 <= r < 10 && DigitChar(r) == c
  {
    (c as int) - ('0' as int)
  }

  /** `n` written with two digits, zero-padded (`%m`, `%d`). */
  function Pad2(n: int): (r: string)
    requires 0 <= n < 100
    ensures |r| == 2
  {
    [DigitChar(n / 10), DigitChar(n % 10)]
  }

  /** The two digits of `Pad2(n)` read back as `n`. */
  lemma Pad2Reads(n: int)
    requires 0 <= n < 100
    ensures IsDigit(Pad2(n)[0]) && IsDigit(Pad2(n)[1])
    ensures 10 * DigitValue(Pad2(n)[0]) + DigitValue(Pad2(n)[1]) == n
  {
  }

  /** `n` written with four digits, zero-padded (`%Y`). */
  function Pad4(n: int): (r: string)
    requires 0 <= n < 10000
    ensures |r| == 4
  {
    [DigitChar(n / 1000), DigitChar(n / 100 % 10), DigitChar(n / 10 % 10), DigitChar(n % 10)]
  }

  /** The four digits of `Pad4(n)` read back as `n`. */
  lemma Pad4Reads(n: int)
    requires 0 <= n < 10000
    ensures forall i :: 0 <= i < 4 ==> IsDigit(Pad4(n)[i])
    ensures 1000 * DigitValue(Pad4(n)[0]) + 100 * DigitValue(Pad4(n)[1])
            + 10 * DigitValue(Pad4(n)[2]) + DigitValue(Pad4(n)[3]) == n
  {
    var a, b, c := n / 1000, n / 100 % 10, n / 10 % 10;
    assert n == 1000 * a + 100 * b + 10 * c + n % 10 by {
      assert n / 10 == 10 * (n / 100) + c;
      assert n / 100 == 10 * a + b;
    }
  }

  /** `date.strftime("%m-%d-%Y")`, the text stored in the reservation table. */
  function Format(d: Date): (r: string)
    requires IsValid(d)
    ensures |r| == 10 && r[2] == '-' && r[5] == '-'
  {
    Pad2(d.month) + "-" + Pad2(d.day) + "-" + Pad4(d.year)
  }

  /** The texts the month field of `strptime("%m-%d-%Y")` matches:
      `1[0-2]|0[1-9]|[1-9]`. */
  predicate MonthText(t: string)
  {
    || (|t| == 1 && '1' <= t[0] <= '9')
    || (|t| == 2 && ((t[0] == '0' && '1' <= t[1] <= '9') || (t[0] == '1' && '0' <= t[1] <= '2')))
  }

  /** The texts the day field matches: `3[01]|[12]\d|0[1-9]|[1-9]| [1-9]`. */
  predicate DayText(t: string)
  {
    || (|t| == 1 && '1' <= t[0] <= '9')
    || (|t| == 2 && (|| ((t[0] == '0' || t[0] == ' ') && '1' <= t[1] <= '9')
                     || ((t[0] == '1' || t[0] == '2') && IsDigit(t[1]))
                     || (t[0] == '3' && '0' <= t[1] <= '1')))
  }

  /** The texts the year field matches: four digits. */
  predicate YearText(t: string)
  {
    |t| == 4 && IsDigit(t[0]) && IsDigit(t[1]) && IsDigit(t[2]) && IsDigit(t[3])
  }

  /** The number a month or day field stands for (a leading blank counts as zero). */
  function FieldValue(t: string): int
    requires MonthText(t) || DayText(t)
  {
    if |t| == 1 then DigitValue(t[0])
    else 10 * (if t[0] == ' ' then 0 else DigitValue(t[0])) + DigitValue(t[1])
  }

  function YearValue(t: string): int
    requires YearText(t)
  {
    1000 * DigitValue(t[0]) + 100 * DigitValue(t[1]) + 10 * DigitValue(t[2]) + DigitValue(t[3])
  }

  /** `s` is a month field, a dash, a day field, a dash and a year field, with
      nothing left over: what the pattern for "%m-%d-%Y" matches. */
  predicate FieldsOf(s: string, m: string, dd: string, y: string)
  {
    s == m + "-" + dd + "-" + y && MonthText(m) && DayText(dd) && YearText(y)
  }

  /**
   * `datetime.strptime(s, "%m-%d-%Y")`: `None` where it raises `ValueError`.
   * No field contains a dash, so the first dash sits after one or two
   * characters and so does the second; the fields must then match and name a
   * date `datetime` accepts.
   */
  function Strptime(s: string): (r: Option<Date>)
    ensures r.Some? ==> IsValid(r.value)
  {
    var i := if |s| > 1 && s[1] == '-' then 1 else 2;
    var j := if |s| > i + 2 && s[i + 2] == '-' then i + 2 else i + 3;
    if |s| == j + 5 && s[i] == '-' && s[j] == '-'
       && MonthText(s[..i]) && DayText(s[i + 1..j]) && YearText(s[j + 1..])
    then
      var d := Date(FieldValue(s[..i]), FieldValue(s[i + 1..j]), YearValue(s[j + 1..]));
      if IsValid(d) then Some(d) else None
    else None
  }

  /** Text that matches the pattern is read field by field. */
  lemma StrptimeReadsFields(s: string, m: string, dd: string, y: string)
    requires FieldsOf(s, m, dd, y)
    ensures var d := Date(FieldValue(m), FieldValue(dd), YearValue(y));
            Strptime(s) == if IsValid(d) then Some(d) else None
  {
    var i, j := |m|, |m| + 1 + |dd|;
    assert s[i] == '-' && s[j] == '-';
    assert s[..i] == m by {
      assert forall k :: 0 <= k < i ==> s[k] == m[k];
    }
    assert s[i + 1..j] == dd by {
      assert forall k :: 0 <= k < |dd| ==> s[i + 1 + k] == dd[k];
    }
    assert s[j + 1..] == y by {
      assert forall k :: 0 <= k < |y| ==> s[j + 1 + k] == y[k];
    }
    if i == 2 {
      assert s[1] == m[1];
    }
    if j == i + 3 {
      assert s[i + 2] == dd[1];
    }
  }

  /** Text `strptime` accepts matches the pattern. */
  lemma StrptimeNeedsFields(s: string)
    requires Strptime(s).Some?
    ensures exists m, dd, y :: FieldsOf(s, m, dd, y)
                               && Strptime(s) == Some(Date(FieldValue(m), FieldValue(dd), YearValue(y)))
  {
    var i := if |s| > 1 && s[1] == '-' then 1 else 2;
    var j := if |s| > i + 2 && s[i + 2] == '-' then i + 2 else i + 3;
    var m, dd, y := s[..i], s[i + 1..j], s[j + 1..];
    assert s == m + "-" + dd + "-" + y;
    assert FieldsOf(s, m, dd, y);
  }

  /** Reading back the stored text gives the date again. */
  lemma ParseFormat(d: Date)
    requires IsValid(d)
    ensures Strptime(Format(d)) == Some(d)
  {
    var m, dd, y := Pad2(d.month), Pad2(d.day), Pad4(d.year);
    Pad2Reads(d.month);
    Pad2Reads(d.day);
    Pad4Reads(d.year);
    assert MonthText(m) && FieldValue(m) == d.month;
    assert DayText(dd) && FieldValue(dd) == d.day;
    assert YearText(y) && YearValue(y) == d.year;
    StrptimeReadsFields(Format(d), m, dd, y);
  }

  /** `strptime` also takes one-digit fields, and a blank before a one-digit day. */
  lemma StrptimeLenientExample()
    ensures Strptime("1-5-2025") == Some(Date(1, 5, 2025))
    ensures Strptime("01- 5-2025") == Some(Date(1, 5, 2025))
    ensures Strptime("02-30-2025").None? && Strptime("01-05-25").None?
  {
  }

  /** Distinct dates are stored as distinct text, so comparing the stored text
      for equality compares the dates. */
  lemma FormatInjective(a: Date, b: Date)
    requires IsValid(a) && IsValid(b) && Format(a) == Format(b)
    ensures a == b
  {
    ParseFormat(a);
    ParseFormat(b);
  }
}
