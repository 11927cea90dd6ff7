/** Calendar dates at day granularity, and the normalisation JavaScript's
    `new Date(year, monthIndex, day)` (and `setMonth`) applies to a month
    index or a day number that lies outside its month. */
module Calendar {

  /** A date in local time; `month` is 1-based (JavaScript's `getMonth()` is `month - 1`). */
  datatype Date = Date(year: int, month: int, day: int)

  predicate IsLeapYear(y: int) {
    y % 4 == 0 && (y % 100 != 0 || y % 400 == 0)
  }

  function DaysInMonth(y: int, m: int): (n: int)
    requires 1 <= m <= 12
    ensures 28 <= n <= 31
    ensures n == 29 <==> m == 2 && IsLeapYear(y)
  {
    if m == 2 then (if IsLeapYear(y) then 29 else 28)
    else if m == 4 || m == 6 || m == 9 || m == 11 then 30
    else 31
  }

  /** A day that exists in the Gregorian calendar. */
  predicate Valid(d: Date) {
    1 <= d.month <= 12 && 1 <= d.day <= DaysInMonth(d.year, d.month)
  }

  type CalendarDate = d: Date | Valid(d) witness Date(1970, 1, 1)

  /** Chronological order of days. */
  predicate Before(a: Date, b: Date) {
    a.year < b.year ||
    (a.year == b.year && (a.month < b.month || (a.month == b.month && a.day < b.day)))
  }

  predicate NotAfter(a: Date, b: Date) {
    !Before(b, a)
  }

  function NextDay(d: Date): (r: Date)
    requires Valid(d)
    ensures Valid(r) && Before(d, r)
  {
    if d.day < DaysInMonth(d.year, d.month) then Date(d.year, d.month, d.day + 1)
    else if d.month < 12 then Date(d.year, d.month + 1, 1)
    else Date(d.year + 1, 1, 1)
  }

  function PrevDay(d: Date): (r: Date)
    requires Valid(d)
    ensures Valid(r) && Before(r, d)
  {
    if d.day > 1 then Date(d.year, d.month, d.day - 1)
    else if d.month > 1 then Date(d.year, d.month - 1, DaysInMonth(d.year, d.month - 1))
    else Date(d.year - 1, 12, 31)
  }

  /** NextDay and PrevDay undo each other. */
  lemma DayStepsInverse(d: Date)
    requires Valid(d)
    ensures PrevDay(NextDay(d)) == d && NextDay(PrevDay(d)) == d
  {
  }

  /** NextDay is the immediate successor: no valid day lies strictly between. */
  lemma NextDayIsSuccessor(d: Date, x: Date)
    requires Valid(d) && Valid(x) && Before(d, x)
    ensures NotAfter(NextDay(d), x)
  {
  }

  /** The day `k` days after `d` (before it when `k` is negative). */
  function Shift(d: Date, k: int): (r: Date)
    requires Valid(d)
    ensures Valid(r)
    ensures k > 0 ==> Before(d, r)
    ensures k < 0 ==> Before(r, d)
    decreases if k >= 0 then k else -k
  {
    if k == 0 then d
    else if k > 0 then Shift(NextDay(d), k - 1)
    else Shift(PrevDay(d), k + 1)
  }

  /** `new Date(year, monthIndex, day)`: the month index (0-based) is first carried
      into the year, then the day number is counted from the first of that month.
      JavaScript also reads a year from 0 to 99 as 1900 + year; that mapping is not
      modelled, since every call here passes a full year (at least 2000 from the
      DD.MM.YY check, and a clock year from `setMonth`, which never remaps it). */
  function NewDate(year: int, monthIndex: int, day: int): (r: CalendarDate)
  {
    Shift(Date(year + monthIndex / 12, monthIndex % 12 + 1, 1), day - 1)
  }

  /** Shifting forward inside a month only moves the day number. */
  lemma {:induction false} ShiftWithinMonth(d: Date, k: nat)
    requires Valid(d)
    requires d.day + k <= DaysInMonth(d.year, d.month)
    ensures Shift(d, k) == Date(d.year, d.month, d.day + k)
    decreases k
  {
    if k > 0 {
      ShiftWithinMonth(Date(d.year, d.month, d.day + 1), k - 1);
    }
  }

  /** The (year, month) after `m` of `y`. */
  function FollowingMonth(y: int, m: int): (ym: (int, int))
    requires 1 <= m <= 12
    ensures 1 <= ym.1 <= 12
  {
    if m < 12 then (y, m + 1) else (y + 1, 1)
  }

  /** Shifting forward past the end of a month (but not past the end of the next)
      lands in the following month. */
  lemma {:induction false} ShiftIntoFollowingMonth(d: Date, k: nat)
    requires Valid(d)
    requires d.day + k > DaysInMonth(d.year, d.month)
    requires d.day + k - DaysInMonth(d.year, d.month) <=
             DaysInMonth(FollowingMonth(d.year, d.month).0, FollowingMonth(d.year, d.month).1)
    ensures Shift(d, k) ==
            Date(FollowingMonth(d.year, d.month).0, FollowingMonth(d.year, d.month).1,
                 d.day + k - DaysInMonth(d.year, d.month))
    decreases k
  {
    var dim := DaysInMonth(d.year, d.month);
    var ym := FollowingMonth(d.year, d.month);
    if d.day == dim {
      assert NextDay(d) == Date(ym.0, ym.1, 1);
      ShiftWithinMonth(Date(ym.0, ym.1, 1), k - 1);
    } else {
      ShiftIntoFollowingMonth(Date(d.year, d.month, d.day + 1), k - 1);
    }
  }

  /** The round trip the date check performs: `new Date(y, m - 1, d)` gives back
      day `d` of month `m` of year `y` exactly when that day exists. */
  lemma NewDateRoundTrip(y: int, m: int, d: int)
    ensures NewDate(y, m - 1, d) == Date(y, m, d) <==> Valid(Date(y, m, d))
  {
    if Valid(Date(y, m, d)) {
      assert (m - 1) / 12 == 0 && (m - 1) % 12 + 1 == m;
      ShiftWithinMonth(Date(y, m, 1), d - 1);
    }
  }

  /** Day 0 of the month after `m` (0-based index `m`) is the last day of month `m`. */
  lemma NewDateDayZero(y: int, m: int)
    requires 1 <= m <= 12
    ensures NewDate(y, m, 0) == Date(y, m, DaysInMonth(y, m))
  {
    var first := Date(y + m / 12, m % 12 + 1, 1);
    if m == 12 {
      assert first == Date(y + 1, 1, 1);
    } else {
      assert first == Date(y, m + 1, 1);
    }
    assert Shift(first, -1) == Shift(PrevDay(first), 0);
  }
}
