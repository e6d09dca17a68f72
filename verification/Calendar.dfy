/** The proleptic Gregorian calendar at minute resolution, as `datetime` computes it. */
module Calendar {
  datatype Date = Date(year: int, month: int, day: int)

  datatype Stamp = Stamp(date: Date, hour: int, minute: int)

  predicate IsLeap(year: int) {
    year % 4 == 0 && (year % 100 != 0 || year % 400 == 0)
  }

  function MonthLength(year: int, month: int): int {
    if month == 2 then (if IsLeap(year) then 29 else 28)
    else if month == 4 || month == 6 || month == 9 || month == 11 then 30
    else 31
  }

  predicate ValidDate(d: Date) {
    d.year >= 1 && 1 <= d.month <= 12 && 1 <= d.day <= MonthLength(d.year, d.month)
  }

  predicate Valid(s: Stamp) {
    ValidDate(s.date) && 0 <= s.hour < 24 && 0 <= s.minute < 60
  }

  function NextDay(d: Date): (r: Date)
    requires ValidDate(d)
    ensures ValidDate(r)
  {
    if d.day < MonthLength(d.year, d.month) then d.(day := d.day + 1)
    else if d.month < 12 then Date(d.year, d.month + 1, 1)
    else Date(d.year + 1, 1, 1)
  }

  function AddDays(d: Date, n: nat): (r: Date)
    requires ValidDate(d)
    ensures ValidDate(r)
  {
    if n == 0 then d else NextDay(AddDays(d, n - 1))
  }

  function DaysBeforeYear(year: int): (n: int)
    requires year >= 1
    ensures n >= 0
    decreases year
  {
    if year == 1 then 0 else DaysBeforeYear(year - 1) + (if IsLeap(year - 1) then 366 else 365)
  }

  function DaysBeforeMonth(year: int, month: int): (n: int)
    requires 1 <= month <= 12
    ensures 28 * (month - 1) <= n <= 31 * (month - 1)
    decreases month
  {
    if month == 1 then 0 else DaysBeforeMonth(year, month - 1) + MonthLength(year, month - 1)
  }

  /** `date.toordinal()`: 0001-01-01 is day 1, a Monday. */
  function Ordinal(d: Date): int
    requires ValidDate(d)
  {
    DaysBeforeYear(d.year) + DaysBeforeMonth(d.year, d.month) + d.day
  }

  /** Day of week with Sunday = 0, i.e. `(weekday() + 1) % 7`. */
  function Weekday(d: Date): int
    requires ValidDate(d)
  {
    Ordinal(d) % 7
  }

  predicate DateBefore(a: Date, b: Date) {
    a.year < b.year || (a.year == b.year && (a.month < b.month || (a.month == b.month && a.day < b.day)))
  }

  predicate Before(a: Stamp, b: Stamp) {
    DateBefore(a.date, b.date)
    || (a.date == b.date && (a.hour < b.hour || (a.hour == b.hour && a.minute < b.minute)))
  }

  /** Minutes since the calendar's origin. */
  function MinuteIndex(s: Stamp): int
    requires Valid(s)
  {
    Ordinal(s.date) * 1440 + s.hour * 60 + s.minute
  }

  lemma QuotientSteps(n: int)
    requires n >= 1
    ensures n / 4 - (n - 1) / 4 == if n % 4 == 0 then 1 else 0
    ensures n / 100 - (n - 1) / 100 == if n % 100 == 0 then 1 else 0
    ensures n / 400 - (n - 1) / 400 == if n % 400 == 0 then 1 else 0
  {
  }

  lemma LeapByQuotients(n: int)
    ensures IsLeap(n) <==> n % 4 == 0 && !(n % 100 == 0 && n % 400 != 0)
    ensures (if IsLeap(n) then 1 else 0) ==
            (if n % 4 == 0 then 1 else 0) - (if n % 100 == 0 then 1 else 0) + (if n % 400 == 0 then 1 else 0)
  {
    assert n % 100 == 0 ==> n == 4 * (25 * (n / 100));
    assert n % 400 == 0 ==> n == 100 * (4 * (n / 400));
  }

  /** Counting year lengths agrees with the closed form of the proleptic ordinal. */
  lemma {:induction false} DaysBeforeYearClosedForm(year: int)
    requires year >= 1
    ensures DaysBeforeYear(year) == 365 * (year - 1) + (year - 1) / 4 - (year - 1) / 100 + (year - 1) / 400
    decreases year
  {
    if year > 1 {
      DaysBeforeYearClosedForm(year - 1);
      QuotientSteps(year - 1);
      LeapByQuotients(year - 1);
    }
  }

  lemma {:induction false} YearsGrow(a: int, b: int)
    requires 1 <= a <= b
    ensures DaysBeforeYear(a) + 365 * (b - a) <= DaysBeforeYear(b) <= DaysBeforeYear(a) + 366 * (b - a)
    decreases b - a
  {
    if a < b {
      YearsGrow(a, b - 1);
    }
  }

  lemma YearLength(year: int)
    ensures DaysBeforeMonth(year, 12) + 31 == if IsLeap(year) then 366 else 365
  {
    var leap := if IsLeap(year) then 1 else 0;
    assert DaysBeforeMonth(year, 3) == 59 + leap;
    assert DaysBeforeMonth(year, 6) == 151 + leap;
    assert DaysBeforeMonth(year, 9) == 243 + leap;
  }

  lemma {:induction false} MonthsGrow(year: int, a: int, b: int)
    requires 1 <= a < b <= 12
    ensures DaysBeforeMonth(year, a) + MonthLength(year, a) <= DaysBeforeMonth(year, b)
    decreases b - a
  {
    if a < b - 1 {
      MonthsGrow(year, a, b - 1);
    }
  }

  /** The closed-form ordinal counts calendar days. */
  lemma OrdinalOfNextDay(d: Date)
    requires ValidDate(d)
    ensures Ordinal(NextDay(d)) == Ordinal(d) + 1
    ensures Weekday(NextDay(d)) == (Weekday(d) + 1) % 7
  {
    if d.day == MonthLength(d.year, d.month) && d.month == 12 {
      YearLength(d.year);
    }
    NextWeekday(Ordinal(d));
  }

  lemma NextWeekday(n: int)
    ensures (n + 1) % 7 == (n % 7 + 1) % 7
  {
  }

  lemma {:induction false} OrdinalOfAddDays(d: Date, n: nat)
    requires ValidDate(d)
    ensures Ordinal(AddDays(d, n)) == Ordinal(d) + n
  {
    if n > 0 {
      OrdinalOfAddDays(d, n - 1);
      OrdinalOfNextDay(AddDays(d, n - 1));
    }
  }

  /** The months of an ordinary year, and the leap day. */
  lemma MonthLengths(year: int, month: int)
    requires 1 <= month <= 12
    ensures MonthLength(year, month) ==
            [31, 28, 31, 30, 31, 30, 31, 31, 30, 31, 30, 31][month - 1] + if month == 2 && IsLeap(year) then 1 else 0
  {
  }

  lemma OrdinalGrows(a: Date, b: Date)
    requires ValidDate(a) && ValidDate(b) && DateBefore(a, b)
    ensures Ordinal(a) < Ordinal(b)
  {
    if a.year < b.year {
      YearLength(a.year);
      YearsGrow(a.year + 1, b.year);
      if a.month < 12 {
        MonthsGrow(a.year, a.month, 12);
      }
    } else if a.month < b.month {
      MonthsGrow(a.year, a.month, b.month);
    }
  }

  /** Calendar order is the order of the minute count, so the count identifies the minute. */
  lemma IndexIsOrder(a: Stamp, b: Stamp)
    requires Valid(a) && Valid(b)
    ensures Before(a, b) <==> MinuteIndex(a) < MinuteIndex(b)
    ensures a == b <==> MinuteIndex(a) == MinuteIndex(b)
  {
    if DateBefore(a.date, b.date) {
      OrdinalGrows(a.date, b.date);
    } else if DateBefore(b.date, a.date) {
      OrdinalGrows(b.date, a.date);
    }
  }

  lemma FirstDay()
    ensures ValidDate(Date(1, 1, 1)) && Ordinal(Date(1, 1, 1)) == 1
  {
  }

  /** The weekday without the ordinal: the calendar's first day is a Monday, and days follow. */
  lemma WeekdayOfDay(n: nat)
    ensures Weekday(AddDays(Date(1, 1, 1), n)) == (n + 1) % 7
  {
    FirstDay();
    OrdinalOfAddDays(Date(1, 1, 1), n);
  }

  lemma DaysFrom(first: Date, d: Date) returns (n: nat)
    requires ValidDate(first) && Ordinal(first) == 1 && ValidDate(d)
    ensures AddDays(first, n) == d
  {
    n := Ordinal(d) - 1;
    OrdinalOfAddDays(first, n);
    SameOrdinal(AddDays(first, n), d);
  }

  /** Every date is some number of days after that first one, so this fixes the weekday of each. */
  lemma DayNumber(d: Date) returns (n: nat)
    requires ValidDate(d)
    ensures AddDays(Date(1, 1, 1), n) == d && Weekday(d) == (n + 1) % 7
  {
    FirstDay();
    n := DaysFrom(Date(1, 1, 1), d);
    WeekdayOfDay(n);
  }

  lemma SameOrdinal(a: Date, b: Date)
    requires ValidDate(a) && ValidDate(b) && Ordinal(a) == Ordinal(b)
    ensures a == b
  {
    IndexIsOrder(Stamp(a, 0, 0), Stamp(b, 0, 0));
  }

  // ---------------------------------------------------------------- datetime arithmetic

  /** `+ timedelta(minutes=1)` */
  function PlusMinute(s: Stamp): (r: Stamp)
    requires Valid(s)
    ensures Valid(r)
  {
    if s.minute < 59 then s.(minute := s.minute + 1) else PlusHour(s)
  }

  /** `.replace(minute=0) + timedelta(hours=1)` */
  function PlusHour(s: Stamp): (r: Stamp)
    requires Valid(s)
    ensures Valid(r)
  {
    if s.hour < 23 then Stamp(s.date, s.hour + 1, 0) else PlusDay(s)
  }

  /** `.replace(hour=0, minute=0) + timedelta(days=1)` */
  function PlusDay(s: Stamp): (r: Stamp)
    requires Valid(s)
    ensures Valid(r)
  {
    Stamp(NextDay(s.date), 0, 0)
  }

  /** `(.replace(day=1, hour=0, minute=0) + timedelta(days=32)).replace(day=1)` */
  function MonthJump(s: Stamp): (r: Stamp)
    requires Valid(s)
    ensures Valid(r)
  {
    Stamp(AddDays(s.date.(day := 1), 32).(day := 1), 0, 0)
  }

  /** `+ timedelta(days=n)` */
  function PlusDays(s: Stamp, n: nat): (r: Stamp)
    requires Valid(s)
    ensures Valid(r)
  {
    s.(date := AddDays(s.date, n))
  }

  lemma {:induction false} AddDaysInMonth(d: Date, n: nat)
    requires ValidDate(d) && d.day + n <= MonthLength(d.year, d.month)
    ensures AddDays(d, n) == d.(day := d.day + n)
  {
    if n > 0 {
      AddDaysInMonth(d, n - 1);
    }
  }

  lemma {:induction false} AddDaysJoins(d: Date, m: nat, n: nat)
    requires ValidDate(d)
    ensures AddDays(d, m + n) == AddDays(AddDays(d, m), n)
  {
    if n > 0 {
      AddDaysJoins(d, m, n - 1);
      assert m + n - 1 == m + (n - 1);
    }
  }

  /** 32 days after the first of a month always lies in the next month, whatever the lengths. */
  lemma MonthJumpIsNextMonth(s: Stamp)
    requires Valid(s)
    ensures MonthJump(s) == Stamp(if s.date.month < 12 then Date(s.date.year, s.date.month + 1, 1)
                                  else Date(s.date.year + 1, 1, 1), 0, 0)
  {
    var first := s.date.(day := 1);
    var len := MonthLength(first.year, first.month);
    AddDaysInMonth(first, len - 1);
    var next := NextDay(AddDays(first, len - 1));
    assert AddDays(first, len) == next;
    AddDaysJoins(first, len, 32 - len);
    AddDaysInMonth(next, 32 - len);
  }
}
