/** The search for the next matching minute of a parsed cron expression. */
module Cron {
  import opened Options
  import opened Calendar

  /** The five value sets; `dayRestricted` and `weekdayRestricted` say that the field is not `*`. */
  datatype Expression = Expression(
    minutes: set<int>, hours: set<int>, days: set<int>, months: set<int>, weekdays: set<int>,
    dayRestricted: bool, weekdayRestricted: bool)

  /** What parsing guarantees of the sets. */
  predicate WellFormed(e: Expression) {
    && e.minutes != {} && e.hours != {} && e.days != {} && e.months != {} && e.weekdays != {}
    && (forall v :: v in e.minutes ==> 0 <= v < 60)
    && (forall v :: v in e.hours ==> 0 <= v < 24)
    && (forall v :: v in e.days ==> 1 <= v <= 31)
    && (forall v :: v in e.months ==> 1 <= v <= 12)
    && (forall v :: v in e.weekdays ==> 0 <= v < 7)
    && (!e.dayRestricted ==> forall v :: 1 <= v <= 31 ==> v in e.days)
    && (!e.weekdayRestricted ==> forall v :: 0 <= v < 7 ==> v in e.weekdays)
  }

  /** Classic cron: with both day fields restricted, either one is enough. */
  predicate DayMatches(e: Expression, d: Date)
    requires ValidDate(d)
  {
    if e.dayRestricted && e.weekdayRestricted then d.day in e.days || Weekday(d) in e.weekdays
    else d.day in e.days && Weekday(d) in e.weekdays
  }

  /** The declarative meaning of an expression, minute by minute. */
  predicate Matches(e: Expression, s: Stamp)
    requires Valid(s)
  {
    s.date.month in e.months && DayMatches(e, s.date) && s.hour in e.hours && s.minute in e.minutes
  }

  const HORIZON_DAYS: nat := 366 * 5

  /** The first instant the search gives up at. */
  function Limit(after: Stamp): (r: Stamp)
    requires Valid(after)
    ensures Valid(r)
  {
    PlusDays(PlusMinute(after), HORIZON_DAYS)
  }

  ghost predicate InWindow(after: Stamp, u: Stamp)
    requires Valid(after)
  {
    Valid(u) && Before(after, u) && Before(u, Limit(after))
  }

  ghost predicate FiresInWindow(e: Expression, after: Stamp)
    requires Valid(after)
  {
    exists u :: InWindow(after, u) && Matches(e, u)
  }

  /** `t` is the least matching minute strictly after `after`. */
  ghost predicate IsNextFire(e: Expression, after: Stamp, t: Stamp)
    requires Valid(after)
  {
    && Valid(t) && Before(after, t) && Matches(e, t)
    && forall u :: Valid(u) && Before(after, u) && Matches(e, u) ==> u == t || Before(t, u)
  }

  /** No minute in `[from, to)` matches. */
  ghost predicate Skippable(e: Expression, from: Stamp, to: Stamp) {
    forall u :: Valid(u) && !Before(u, from) && Before(u, to) ==> !Matches(e, u)
  }

  lemma MonthJumpSkips(e: Expression, s: Stamp)
    requires Valid(s) && s.date.month !in e.months
    ensures Skippable(e, s, MonthJump(s)) && Before(s, MonthJump(s))
  {
    MonthJumpIsNextMonth(s);
  }

  lemma DayJumpSkips(e: Expression, s: Stamp)
    requires Valid(s) && !DayMatches(e, s.date)
    ensures Skippable(e, s, PlusDay(s)) && Before(s, PlusDay(s))
  {
    forall u | Valid(u) && !Before(u, s) && Before(u, PlusDay(s))
      ensures !Matches(e, u)
    {
      assert u.date == s.date;
    }
  }

  lemma HourJumpSkips(e: Expression, s: Stamp)
    requires Valid(s) && s.hour !in e.hours
    ensures Skippable(e, s, PlusHour(s)) && Before(s, PlusHour(s))
  {
    forall u | Valid(u) && !Before(u, s) && Before(u, PlusHour(s))
      ensures !Matches(e, u)
    {
      assert u.hour == s.hour;
    }
  }

  lemma NothingBetween(s: Stamp, u: Stamp)
    requires Valid(s) && Valid(u) && !Before(u, s) && Before(u, PlusMinute(s))
    ensures u == s && Before(s, PlusMinute(s))
  {
  }

  lemma MinuteJumpSkips(e: Expression, s: Stamp)
    requires Valid(s) && !Matches(e, s)
    ensures Skippable(e, s, PlusMinute(s)) && Before(s, PlusMinute(s))
  {
    forall u | Valid(u) && !Before(u, s) && Before(u, PlusMinute(s))
      ensures !Matches(e, u)
    {
      NothingBetween(s, u);
    }
  }

  /** Everything after `after` and before `candidate` is known not to match. */
  ghost predicate Cleared(e: Expression, after: Stamp, candidate: Stamp) {
    Valid(after) && Valid(candidate) && Before(after, candidate)
    && forall u :: Valid(u) && Before(after, u) && Before(u, candidate) ==> !Matches(e, u)
  }

  lemma ClearedFromStart(e: Expression, after: Stamp)
    requires Valid(after)
    ensures Cleared(e, after, PlusMinute(after))
  {
    forall u | Valid(u) && Before(after, u) && Before(u, PlusMinute(after))
      ensures false
    {
      NothingBetween(after, u);
    }
  }

  lemma ClearedExtends(e: Expression, after: Stamp, candidate: Stamp, next: Stamp, limit: Stamp)
    requires Cleared(e, after, candidate) && Valid(next) && Valid(limit) && Before(candidate, limit)
    requires Skippable(e, candidate, next) && Before(candidate, next)
    ensures Cleared(e, after, next)
    ensures MinuteIndex(limit) - MinuteIndex(next) < MinuteIndex(limit) - MinuteIndex(candidate)
    ensures MinuteIndex(limit) - MinuteIndex(candidate) > 0
  {
    IndexIsOrder(candidate, next);
    IndexIsOrder(candidate, limit);
  }

  lemma ClearedIsLeast(e: Expression, after: Stamp, candidate: Stamp)
    requires Cleared(e, after, candidate) && Matches(e, candidate)
    ensures IsNextFire(e, after, candidate)
  {
    forall u | Valid(u) && Before(after, u) && Matches(e, u)
      ensures u == candidate || Before(candidate, u)
    {
      IndexIsOrder(u, candidate);
      IndexIsOrder(candidate, u);
    }
  }

  lemma ClearedToLimit(e: Expression, after: Stamp, candidate: Stamp)
    requires Cleared(e, after, candidate) && !Before(candidate, Limit(after))
    ensures !FiresInWindow(e, after)
  {
    forall u | InWindow(after, u)
      ensures !Matches(e, u)
    {
      IndexIsOrder(u, Limit(after));
      IndexIsOrder(u, candidate);
      IndexIsOrder(candidate, Limit(after));
    }
  }

  /** The month, day, hour and minute jumps skip only minutes that cannot match, so the search is
      exact: the least matching minute, or nothing if and only if no minute of the window matches. */
  method NextFire(e: Expression, after: Stamp) returns (fire: Option<Stamp>)
    requires Valid(after)
    ensures fire.Some? ==> IsNextFire(e, after, fire.value) && InWindow(after, fire.value)
    ensures fire.None? <==> !FiresInWindow(e, after)
  {
    var candidate := PlusMinute(after);
    var limit := PlusDays(candidate, HORIZON_DAYS);
    ClearedFromStart(e, after);
    while Before(candidate, limit)
      invariant Cleared(e, after, candidate)
      decreases MinuteIndex(limit) - MinuteIndex(candidate)
    {
      if candidate.date.month !in e.months {
        MonthJumpSkips(e, candidate);
        ClearedExtends(e, after, candidate, MonthJump(candidate), limit);
        candidate := MonthJump(candidate);
        continue;
      }
      var dayOk;
      if e.dayRestricted && e.weekdayRestricted {
        dayOk := candidate.date.day in e.days || Weekday(candidate.date) in e.weekdays;
      } else {
        dayOk := candidate.date.day in e.days && Weekday(candidate.date) in e.weekdays;
      }
      if !dayOk {
        DayJumpSkips(e, candidate);
        ClearedExtends(e, after, candidate, PlusDay(candidate), limit);
        candidate := PlusDay(candidate);
        continue;
      }
      if candidate.hour !in e.hours {
        HourJumpSkips(e, candidate);
        ClearedExtends(e, after, candidate, PlusHour(candidate), limit);
        candidate := PlusHour(candidate);
        continue;
      }
      if candidate.minute !in e.minutes {
        MinuteJumpSkips(e, candidate);
        ClearedExtends(e, after, candidate, PlusMinute(candidate), limit);
        candidate := PlusMinute(candidate);
        continue;
      }
      ClearedIsLeast(e, after, candidate);
      assert InWindow(after, candidate);
      return Some(candidate);
    }
    ClearedToLimit(e, after, candidate);
    fire := None;
  }

  // ---------------------------------------------------------------- when a match exists

  lemma DateInWindow(after: Stamp, d: Date, hour: int, minute: int)
    requires Valid(after) && Valid(Stamp(d, hour, minute))
    requires Ordinal(PlusMinute(after).date) < Ordinal(d) < Ordinal(PlusMinute(after).date) + HORIZON_DAYS
    ensures InWindow(after, Stamp(d, hour, minute))
  {
    var start := PlusMinute(after);
    OrdinalOfAddDays(start.date, HORIZON_DAYS);
    IndexIsOrder(Stamp(d, hour, minute), Limit(after));
    IndexIsOrder(start, Stamp(d, hour, minute));
    IndexIsOrder(after, start);
    IndexIsOrder(after, Stamp(d, hour, minute));
  }

  /** Any date of the next calendar year lies in the window. */
  lemma NextYearInWindow(after: Stamp, d: Date, hour: int, minute: int)
    requires Valid(after) && Valid(Stamp(d, hour, minute)) && d.year == PlusMinute(after).date.year + 1
    ensures InWindow(after, Stamp(d, hour, minute))
  {
    var start := PlusMinute(after).date;
    OrdinalGrows(start, d);
    DateInWindow(after, d, hour, minute);
  }

  lemma ShiftToWeekday(n: int, weekday: int) returns (k: nat)
    requires 0 <= weekday < 7
    ensures k < 7 && (n + k) % 7 == weekday
  {
    if weekday >= n % 7 {
      k := weekday - n % 7;
      assert n + k == 7 * (n / 7) + weekday;
    } else {
      k := weekday + 7 - n % 7;
      assert n + k == 7 * (n / 7 + 1) + weekday;
    }
  }

  /** Every month of every year has each weekday among its first seven days. */
  lemma WeekdayInMonth(year: int, month: int, weekday: int) returns (d: Date)
    requires year >= 1 && 1 <= month <= 12 && 0 <= weekday < 7
    ensures ValidDate(d) && d.year == year && d.month == month && d.day <= 7 && Weekday(d) == weekday
  {
    var first := Date(year, month, 1);
    var k := ShiftToWeekday(Ordinal(first), weekday);
    d := AddDays(first, k);
    AddDaysInMonth(first, k);
    OrdinalOfAddDays(first, k);
  }

  lemma Element(s: set<int>) returns (x: int)
    requires s != {}
    ensures x in s
  {
    assert exists v :: v in s by {
      if forall v :: v !in s {
        assert false;
      }
    }
    x :| x in s;
  }

  /** Some day of some allowed month is allowed even in a year without a 29 February. */
  predicate OrdinaryDay(e: Expression) {
    exists m, d :: m in e.months && d in e.days && d <= MonthLength(1, m)
  }

  /** An allowed time of `date` is not before `start`. */
  predicate TimeLeft(e: Expression, date: Date, start: Stamp) {
    exists h, n :: h in e.hours && n in e.minutes && !Before(Stamp(date, h, n), start)
  }

  /** An allowed time of `date` is before `start`. */
  predicate TimePassed(e: Expression, date: Date, start: Stamp) {
    exists h, n :: h in e.hours && n in e.minutes && Before(Stamp(date, h, n), start)
  }

  predicate NoLeapYearNext(y: int) {
    !IsLeap(y + 1) && !IsLeap(y + 2) && !IsLeap(y + 3) && !IsLeap(y + 4)
  }

  /** Whether a search from `start` comes to a 29 February at an allowed time: one of the next four
      years is leap, or this one is and its 29 February is still ahead, or the fifth one is and
      24 February of this year, 1830 days before that 29 February, is behind. */
  predicate LeapDayAhead(e: Expression, start: Stamp) {
    var y := start.date.year;
    || !NoLeapYearNext(y)
    || (IsLeap(y) && TimeLeft(e, Date(y, 2, 29), start))
    || (IsLeap(y + 5) && TimePassed(e, Date(y, 2, 24), start))
  }

  lemma MonthLengthBounds(y: int, m: int)
    requires 1 <= m <= 12
    ensures MonthLength(1, m) <= MonthLength(y, m)
    ensures MonthLength(y, m) > MonthLength(1, m) ==> m == 2 && IsLeap(y) && MonthLength(y, m) == 29
  {
  }

  lemma OrdinaryExpressionFires(e: Expression, after: Stamp)
    requires WellFormed(e) && Valid(after) && (e.weekdayRestricted || OrdinaryDay(e))
    ensures FiresInWindow(e, after)
  {
    var year := PlusMinute(after).date.year + 1;
    var h := Element(e.hours);
    var n := Element(e.minutes);
    var d: Date;
    if e.weekdayRestricted {
      var m := Element(e.months);
      var w := Element(e.weekdays);
      d := WeekdayInMonth(year, m, w);
    } else {
      var m, day :| m in e.months && day in e.days && day <= MonthLength(1, m);
      MonthLengthBounds(year, m);
      d := Date(year, m, day);
    }
    NextYearInWindow(after, d, h, n);
    assert Matches(e, Stamp(d, h, n));
  }

  /** The leap day of year `y`, seen from `start`'s year. */
  lemma LeapDayDistance(year: int, y: int)
    requires year >= 1 && year < y && IsLeap(y)
    ensures Ordinal(Date(year + 1, 1, 1)) <= Ordinal(Date(y, 2, 29)) - 59
    ensures y <= year + 4 ==> Ordinal(Date(y, 2, 29)) < Ordinal(Date(year, 1, 1)) + HORIZON_DAYS
    ensures y > year + 5 ==> Ordinal(Date(y, 2, 29)) > Ordinal(Date(year, 12, 31)) + HORIZON_DAYS
  {
    YearsGrow(year, y);
    YearsGrow(year + 1, y);
    YearLength(year);
    assert DaysBeforeMonth(y, 2) == 31;
  }

  lemma OrdinaryYear(y: int)
    requires y >= 1 && !IsLeap(y)
    ensures DaysBeforeYear(y + 1) == DaysBeforeYear(y) + 365
  {
  }

  lemma NoLeapBeforeFifth(y: int)
    requires IsLeap(y + 5)
    ensures !IsLeap(y)
  {
  }

  /** With no leap year in between, 29 February of the fifth year is 1830 days after 24 February. */
  lemma FifthLeapDay(y: int)
    requires y >= 1 && !IsLeap(y + 1) && !IsLeap(y + 2) && !IsLeap(y + 3) && !IsLeap(y + 4) && IsLeap(y + 5)
    ensures Ordinal(Date(y + 5, 2, 29)) == Ordinal(Date(y, 2, 24)) + HORIZON_DAYS
  {
    NoLeapBeforeFifth(y);
    OrdinaryYear(y);
    OrdinaryYear(y + 1);
    OrdinaryYear(y + 2);
    OrdinaryYear(y + 3);
    OrdinaryYear(y + 4);
    assert DaysBeforeMonth(y, 2) == 31 && DaysBeforeMonth(y + 5, 2) == 31;
  }

  lemma IndexSteps(s: Stamp)
    requires Valid(s)
    ensures MinuteIndex(PlusMinute(s)) == MinuteIndex(s) + 1
    ensures MinuteIndex(PlusDays(s, HORIZON_DAYS)) == MinuteIndex(s) + 1440 * HORIZON_DAYS
  {
    OrdinalOfNextDay(s.date);
    OrdinalOfAddDays(s.date, HORIZON_DAYS);
  }

  /** The window, counted in minutes from the start of the search. */
  lemma WindowByIndex(after: Stamp, u: Stamp)
    requires Valid(after) && Valid(u)
    ensures InWindow(after, u) <==> 0 <= MinuteIndex(u) - MinuteIndex(PlusMinute(after)) < 1440 * HORIZON_DAYS
  {
    IndexSteps(after);
    IndexSteps(PlusMinute(after));
    IndexIsOrder(after, u);
    IndexIsOrder(u, Limit(after));
  }

  lemma StartInYear(s: Stamp)
    requires Valid(s)
    ensures Ordinal(Date(s.date.year, 1, 1)) <= Ordinal(s.date) <= Ordinal(Date(s.date.year, 12, 31))
    ensures Ordinal(s.date) < Ordinal(Date(s.date.year + 1, 1, 1))
  {
    if s.date != Date(s.date.year, 1, 1) {
      OrdinalGrows(Date(s.date.year, 1, 1), s.date);
    }
    if s.date != Date(s.date.year, 12, 31) {
      OrdinalGrows(s.date, Date(s.date.year, 12, 31));
    }
    OrdinalGrows(s.date, Date(s.date.year + 1, 1, 1));
  }

  /** A leap day of one of the next four years lies within the horizon, one before this year or after
      the fifth does not. */
  lemma LeapDayByYear(after: Stamp, y: int, h: int, n: int)
    requires Valid(after) && IsLeap(y) && Valid(Stamp(Date(y, 2, 29), h, n))
    ensures var year := PlusMinute(after).date.year;
            && (InWindow(after, Stamp(Date(y, 2, 29), h, n)) ==> year <= y <= year + 5)
            && (year < y <= year + 4 ==> InWindow(after, Stamp(Date(y, 2, 29), h, n)))
  {
    var start := PlusMinute(after);
    WindowByIndex(after, Stamp(Date(y, 2, 29), h, n));
    StartInYear(start);
    if start.date.year < y {
      LeapDayDistance(start.date.year, y);
    } else if y < start.date.year {
      OrdinalGrows(Date(y, 2, 29), start.date);
    }
  }

  lemma LeapDayThisYear(after: Stamp, h: int, n: int)
    requires Valid(after) && IsLeap(PlusMinute(after).date.year) && Valid(Stamp(Date(1, 1, 1), h, n))
    ensures var leapDay := Stamp(Date(PlusMinute(after).date.year, 2, 29), h, n);
            InWindow(after, leapDay) <==> !Before(leapDay, PlusMinute(after))
  {
    var start := PlusMinute(after);
    var leapDay := Stamp(Date(start.date.year, 2, 29), h, n);
    WindowByIndex(after, leapDay);
    IndexIsOrder(leapDay, start);
    StartInYear(start);
    StartInYear(leapDay);
    YearLength(start.date.year);
  }

  lemma LeapDayOfFifthYear(after: Stamp, h: int, n: int)
    requires Valid(after) && Valid(Stamp(Date(1, 1, 1), h, n))
    requires NoLeapYearNext(PlusMinute(after).date.year) && IsLeap(PlusMinute(after).date.year + 5)
    ensures var year := PlusMinute(after).date.year;
            InWindow(after, Stamp(Date(year + 5, 2, 29), h, n))
            <==> Before(Stamp(Date(year, 2, 24), h, n), PlusMinute(after))
  {
    var start := PlusMinute(after);
    var year := start.date.year;
    var leapDay := Stamp(Date(year + 5, 2, 29), h, n);
    WindowByIndex(after, leapDay);
    FifthLeapDay(year);
    IndexIsOrder(Stamp(Date(year, 2, 24), h, n), start);
    OrdinalGrows(start.date, leapDay.date);
  }

  /** Exactly when the search succeeds, read off the expression and the date it starts from: some day
      of an ordinary year is allowed, or 29 February is and one is close enough ahead. */
  lemma FiresIff(e: Expression, after: Stamp)
    requires WellFormed(e) && Valid(after)
    ensures FiresInWindow(e, after) <==>
            || e.weekdayRestricted
            || OrdinaryDay(e)
            || (2 in e.months && 29 in e.days && LeapDayAhead(e, PlusMinute(after)))
  {
    if e.weekdayRestricted || OrdinaryDay(e) {
      OrdinaryExpressionFires(e, after);
    } else {
      if FiresInWindow(e, after) {
        FiringNeedsLeapDay(e, after);
      }
      if 2 in e.months && 29 in e.days && LeapDayAhead(e, PlusMinute(after)) {
        LeapDayFires(e, after);
      }
    }
  }

  lemma LeapYearIsNext(year: int, y: int)
    requires year < y <= year + 4
    ensures IsLeap(y) ==> !NoLeapYearNext(year)
  {
    assert y == year + 1 || y == year + 2 || y == year + 3 || y == year + 4;
  }

  lemma LeapDayAt(e: Expression, after: Stamp, u: Stamp)
    requires Valid(after) && Valid(u) && u.date == Date(u.date.year, 2, 29)
    requires InWindow(after, u) && u.hour in e.hours && u.minute in e.minutes
    ensures LeapDayAhead(e, PlusMinute(after))
  {
    var start := PlusMinute(after);
    LeapDayByYear(after, u.date.year, u.hour, u.minute);
    var year := start.date.year;
    if u.date.year == year {
      LeapDayThisYear(after, u.hour, u.minute);
      assert TimeLeft(e, Date(year, 2, 29), start);
    } else if u.date.year <= year + 4 {
      LeapYearIsNext(year, u.date.year);
    } else if NoLeapYearNext(year) {
      LeapDayOfFifthYear(after, u.hour, u.minute);
      assert TimePassed(e, Date(year, 2, 24), start);
    }
  }

  lemma FiringNeedsLeapDay(e: Expression, after: Stamp)
    requires WellFormed(e) && Valid(after) && !e.weekdayRestricted && !OrdinaryDay(e) && FiresInWindow(e, after)
    ensures 2 in e.months && 29 in e.days && LeapDayAhead(e, PlusMinute(after))
  {
    var u :| InWindow(after, u) && Matches(e, u);
    MonthLengthBounds(u.date.year, u.date.month);
    assert u.date.day > MonthLength(1, u.date.month);
    assert u.date == Date(u.date.year, 2, 29);
    LeapDayAt(e, after, u);
  }

  lemma LeapDayFires(e: Expression, after: Stamp)
    requires WellFormed(e) && Valid(after) && 2 in e.months && 29 in e.days && LeapDayAhead(e, PlusMinute(after))
    requires !e.weekdayRestricted
    ensures FiresInWindow(e, after)
  {
    var start := PlusMinute(after);
    var year := start.date.year;
    var y := year;
    var h := Element(e.hours);
    var n := Element(e.minutes);
    if !NoLeapYearNext(year) {
      y := if IsLeap(year + 1) then year + 1 else if IsLeap(year + 2) then year + 2
           else if IsLeap(year + 3) then year + 3 else year + 4;
    } else if IsLeap(year) && TimeLeft(e, Date(year, 2, 29), start) {
      h, n :| h in e.hours && n in e.minutes && !Before(Stamp(Date(year, 2, 29), h, n), start);
      LeapDayThisYear(after, h, n);
    } else {
      y := year + 5;
      h, n :| h in e.hours && n in e.minutes && Before(Stamp(Date(year, 2, 24), h, n), start);
      LeapDayOfFifthYear(after, h, n);
    }
    LeapDayByYear(after, y, h, n);
    assert Matches(e, Stamp(Date(y, 2, 29), h, n));
  }

  lemma CenturyIsNext(year: int) returns (c: int)
    requires NoLeapYearNext(year)
    ensures year < c <= year + 4 && c % 100 == 0 && c % 400 != 0
  {
    c := year + 4 - year % 4;
    assert c % 4 == 0;
    LeapYearIsNext(year, c);
  }

  /** With 29 February allowed the search fails only when one of the next four years is a non-leap
      century. */
  lemma FailureMeetsCentury(e: Expression, after: Stamp) returns (c: int)
    requires WellFormed(e) && Valid(after) && 2 in e.months && 29 in e.days
    requires !FiresInWindow(e, after)
    ensures PlusMinute(after).date.year < c <= PlusMinute(after).date.year + 4 && c % 100 == 0 && c % 400 != 0
  {
    FiresIff(e, after);
    c := CenturyIsNext(PlusMinute(after).date.year);
  }

  /** A well-formed expression that allows some day up to the 28th never fails. */
  lemma EarlyDayFires(e: Expression, after: Stamp, day: int)
    requires WellFormed(e) && Valid(after) && day in e.days && day <= 28
    ensures FiresInWindow(e, after)
  {
    var m := Element(e.months);
    assert m in e.months && day in e.days && day <= MonthLength(1, m);
    OrdinaryExpressionFires(e, after);
  }

  lemma LeapYearsAround2100()
    ensures IsLeap(2096) && NoLeapYearNext(2096) && !IsLeap(2101)
  {
  }

  /** "29 February only" fails around a non-leap century, from the end of the last leap day before it:
      from 29 February 2096 on, the next one (2104) is beyond the horizon. */
  lemma LeapDayOnlyFailsAfter2096(e: Expression)
    requires WellFormed(e) && !e.weekdayRestricted && e.months == {2} && e.days == {29}
    ensures !FiresInWindow(e, Stamp(Date(2096, 2, 29), 23, 59))
  {
    var after, start := Stamp(Date(2096, 2, 29), 23, 59), Stamp(Date(2096, 3, 1), 0, 0);
    LeapYearsAround2100();
    assert PlusMinute(after) == start;
    assert !OrdinaryDay(e) && !TimeLeft(e, Date(2096, 2, 29), start);
    FiresIff(e, after);
  }
}
