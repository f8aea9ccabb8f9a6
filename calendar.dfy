/** Calendar dates as Python's `date` has them, the `date + timedelta(days=n)`
    arithmetic, and PostgreSQL's `to_char(d, 'MM-DD')` text with its ordering. */
module Calendar {

  predicate IsLeapYear(y: int) {
    y % 4 == 0 && (y % 100 != 0 || y % 400 == 0)
  }

  function DaysInMonth(y: int, m: int): int
    requires 1 <= m <= 12
  {
    if m == 2 then (if IsLeapYear(y) then 29 else 28)
    else if m == 4 || m == 6 || m == 9 || m == 11 then 30
    else 31
  }

  datatype YearMonthDay = YearMonthDay(year: int, month: int, day: int) {
    predicate Valid() {
      1 <= month <= 12 && 1 <= day <= DaysInMonth(year, month)
    }
  }

  /** A calendar date: only real days of the Gregorian calendar. */
  type Date = d: YearMonthDay | d.Valid() witness YearMonthDay(2000, 1, 1)

  /** The day after `d`, rolling over month and year ends. */
  function NextDay(d: Date): (r: Date)
    ensures r.year == d.year || (d.month == 12 && d.day == 31 && r == YearMonthDay(d.year + 1, 1, 1))
  {
    if d.day < DaysInMonth(d.year, d.month) then YearMonthDay(d.year, d.month, d.day + 1)
    else if d.month < 12 then YearMonthDay(d.year, d.month + 1, 1)
    else YearMonthDay(d.year + 1, 1, 1)
  }

  /** `d + timedelta(days=n)`, one day at a time. */
  function AddDays(d: Date, n: nat): Date
  {
    if n == 0 then d else NextDay(AddDays(d, n - 1))
  }

  /** Closed form of adding fewer than 28 days: at most one month boundary
      (and then possibly one year boundary) is crossed. */
  function ShiftWithinMonth(d: Date, n: nat): YearMonthDay
    requires n < 28
  {
    var dim := DaysInMonth(d.year, d.month);
    if d.day + n <= dim then YearMonthDay(d.year, d.month, d.day + n)
    else if d.month < 12 then YearMonthDay(d.year, d.month + 1, d.day + n - dim)
    else YearMonthDay(d.year + 1, 1, d.day + n - dim)
  }

  lemma {:induction false} AddDaysClosedForm(d: Date, n: nat)
    requires n < 28
    ensures AddDays(d, n) == ShiftWithinMonth(d, n)
  {
    if n > 0 {
      AddDaysClosedForm(d, n - 1);
    }
  }

  /** A week later lies in another year only when the start is late in
      December and the end early in January. */
  lemma {:induction false} WeekAcrossNewYear(d: Date)
    requires AddDays(d, 7).year != d.year
    ensures d.month == 12 && d.day > 24
    ensures AddDays(d, 7).month == 1 && AddDays(d, 7).day <= 7
    ensures AddDays(d, 7).year == d.year + 1
  {
    AddDaysClosedForm(d, 7);
  }

  function Digit(n: int): char
    requires 0 <= n <= 9
  {
    (48 + n) as char
  }

  /** PostgreSQL `to_char(d, 'MM-DD')`: zero-padded month, a hyphen, zero-padded day. */
  function MonthDayText(d: Date): (s: string)
    ensures |s| == 5 && s[2] == '-'
  {
    [Digit(d.month / 10), Digit(d.month % 10), '-', Digit(d.day / 10), Digit(d.day % 10)]
  }

  /** Text comparison, character by character, a proper prefix first. */
  predicate TextLe(a: string, b: string)
    decreases |a|
  {
    if a == [] then true
    else if b == [] then false
    else if a[0] != b[0] then a[0] < b[0]
    else TextLe(a[1..], b[1..])
  }

  /** The order of (month, day) pairs, as one number. */
  function MonthDayKey(d: Date): int {
    d.month * 100 + d.day
  }

  lemma TextLeStep(a: string, b: string)
    requires a != [] && b != [] && a[0] == b[0]
    ensures TextLe(a, b) == TextLe(a[1..], b[1..])
  {
  }

  lemma {:induction false} TwoDigitsOrder(x: int, y: int)
    requires 0 <= x < 100 && 0 <= y < 100
    ensures x / 10 < y / 10 || (x / 10 == y / 10 && x % 10 <= y % 10) <==> x <= y
  {
  }

  /** Comparing the 'MM-DD' texts is comparing month first, then day. */
  lemma {:induction false} MonthDayTextOrder(a: Date, b: Date)
    ensures TextLe(MonthDayText(a), MonthDayText(b)) <==> MonthDayKey(a) <= MonthDayKey(b)
  {
    var s, t := MonthDayText(a), MonthDayText(b);
    TwoDigitsOrder(a.month, b.month);
    TwoDigitsOrder(a.day, b.day);
    if s[0] == t[0] {
      TextLeStep(s, t);
      if s[1] == t[1] {
        TextLeStep(s[1..], t[1..]);
        TextLeStep(s[2..], t[2..]);
        if s[3] == t[3] {
          TextLeStep(s[3..], t[3..]);
          assert s[4..][1..] == [] == t[4..][1..];
        }
      }
    }
  }
}
