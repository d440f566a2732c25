// The proleptic Gregorian calendar in UTC, as far as `AddDate` uses it. Months
// are counted from January of year 1 (month 0), days from the first of them.
module UtcCalendar {
  import opened Instants
  import opened Recurrence
  import opened OccurrenceWalks

  predicate Leap(year: int) {
    year % 4 == 0 && (year % 100 != 0 || year % 400 == 0)
  }

  function MonthLength(k: int): (length: int)
    ensures 28 <= length <= 31
  {
    var month := k % 12;
    if month == 1 then (if Leap(k / 12 + 1) then 29 else 28)
    else if month == 3 || month == 5 || month == 8 || month == 10 then 30
    else 31
  }

  function MonthStart(k: int): int
    decreases if k < 0 then -k else k
  {
    if k == 0 then 0
    else if k > 0 then MonthStart(k - 1) + MonthLength(k - 1)
    else MonthStart(k + 1) - MonthLength(k)
  }

  lemma MonthStartNext(k: int)
    ensures MonthStart(k + 1) == MonthStart(k) + MonthLength(k)
  {
  }

  lemma {:induction false} MonthStartGrows(j: int, k: int)
    requires j < k
    ensures MonthStart(j) + 28 <= MonthStart(k)
    decreases k - j
  {
    MonthStartNext(k - 1);
    if j < k - 1 {
      MonthStartGrows(j, k - 1);
    }
  }

  lemma MonthStartInjective(j: int, k: int)
    requires MonthStart(j) == MonthStart(k)
    ensures j == k
  {
    if j < k {
      MonthStartGrows(j, k);
    } else if k < j {
      MonthStartGrows(k, j);
    }
  }

  lemma MonthOfYear(y: int, month: int)
    requires 0 <= month < 12
    ensures (12 * y + month) % 12 == month && (12 * y + month) / 12 == y
  {
  }

  /** A quarter of a year, three months from `k`. */
  lemma Quarter(y: int, first: int)
    requires first == 0 || first == 3 || first == 6 || first == 9
    ensures var k := 12 * y + first;
            MonthStart(k + 3) == MonthStart(k)
              + (if first == 0 then (if Leap(y + 1) then 91 else 90) else if first == 3 then 91 else 92)
  {
    var k := 12 * y + first;
    MonthOfYear(y, first);
    MonthOfYear(y, first + 1);
    MonthOfYear(y, first + 2);
    MonthStartNext(k);
    MonthStartNext(k + 1);
    MonthStartNext(k + 2);
  }

  lemma YearLength(y: int)
    ensures MonthStart(12 * y + 12) == MonthStart(12 * y) + (if Leap(y + 1) then 366 else 365)
  {
    Quarter(y, 0);
    Quarter(y, 3);
    Quarter(y, 6);
    Quarter(y, 9);
  }

  lemma LeapCount(y: int)
    ensures (y + 1) / 4 - (y + 1) / 100 + (y + 1) / 400 == y / 4 - y / 100 + y / 400 + (if Leap(y + 1) then 1 else 0)
  {
    assert (y + 1) / 4 == y / 4 + (if (y + 1) % 4 == 0 then 1 else 0);
    assert (y + 1) / 100 == y / 100 + (if (y + 1) % 100 == 0 then 1 else 0);
    assert (y + 1) / 400 == y / 400 + (if (y + 1) % 400 == 0 then 1 else 0);
    FourInHundred(y + 1);
    HundredInFour(y + 1);
  }

  lemma FourInHundred(y: int)
    ensures y % 100 == 0 ==> y % 4 == 0
  {
    assert y % 100 == 0 ==> y == 4 * (25 * (y / 100));
  }

  lemma HundredInFour(y: int)
    ensures y % 400 == 0 ==> y % 100 == 0
  {
    assert y % 400 == 0 ==> y == 100 * (4 * (y / 400));
  }

  /** Whole years take 365 days and the Gregorian leap days. */
  lemma {:induction false} YearStart(y: nat)
    ensures MonthStart(12 * y) == 365 * y + y / 4 - y / 100 + y / 400
  {
    if y > 0 {
      YearStart(y - 1);
      YearLength(y - 1);
      assert 12 * (y - 1) + 12 == 12 * y;
      LeapCount(y - 1);
    }
  }

  /** The lengths of the months. */
  lemma MonthTable(y: int, month: int)
    requires 0 <= month < 12
    ensures MonthStart(12 * y + month + 1) - MonthStart(12 * y + month)
         == if month == 1 && Leap(y + 1) then 29
            else [31, 28, 31, 30, 31, 30, 31, 31, 30, 31, 30, 31][month]
  {
    MonthStartNext(12 * y + month);
    MonthOfYear(y, month);
  }

  /** The month that contains day `d`, searched from month `k`. */
  function MonthFrom(d: int, k: int): (month: int)
    ensures MonthStart(month) <= d < MonthStart(month + 1)
    decreases if d < MonthStart(k) then MonthStart(k) - d else d - MonthStart(k)
  {
    MonthStartNext(k);
    MonthStartNext(k - 1);
    if d < MonthStart(k) then
      if MonthStart(k - 1) <= d then k - 1 else MonthFrom(d, k - 1)
    else if MonthStart(k + 1) <= d then MonthFrom(d, k + 1)
    else k
  }

  function MonthOf(d: int): (month: int)
    ensures MonthStart(month) <= d < MonthStart(month + 1)
  {
    MonthFrom(d, 0)
  }

  lemma MonthOfUnique(d: int, k: int)
    requires MonthStart(k) <= d < MonthStart(k + 1)
    ensures MonthOf(d) == k
  {
    var m := MonthOf(d);
    if m < k {
      if m + 1 < k { MonthStartGrows(m + 1, k); }
    } else if k < m {
      if k + 1 < m { MonthStartGrows(k + 1, m); }
    }
  }

  /** Zero-based day of the month. */
  function MonthDay(d: int): (day: int)
    ensures 0 <= day < MonthLength(MonthOf(d))
  {
    MonthStartNext(MonthOf(d));
    d - MonthStart(MonthOf(d))
  }

  /** `AddDate(0, months, days)` on a day number: the day of the month is kept and
      counted from the start of the target month, running over if it is too short. */
  function AddDays(d: int, months: nat, days: nat): int {
    MonthStart(MonthOf(d) + months) + MonthDay(d) + days
  }

  function DayOf(t: Instant): int {
    t / 86_400_000_000_000
  }

  function ClockOf(t: Instant): int {
    t % 86_400_000_000_000
  }

  function UtcAddDate(seconds: int, months: nat, days: nat): int {
    AddDays(seconds / 86_400, months, days) * 86_400 + seconds % 86_400
  }

  function Utc(): Zone {
    Zone(UtcAddDate)
  }

  /** An instant, its day and the second of the day. */
  lemma DaySplit(t: Instant)
    ensures (t / 1_000_000_000) / 86_400 == DayOf(t)
    ensures Seconds((t / 1_000_000_000) % 86_400) + t % 1_000_000_000 == ClockOf(t)
  {
  }

  lemma UtcDate(t: Instant, months: nat, days: nat)
    ensures AddDate(Utc(), t, months, days) == AddDays(DayOf(t), months, days) * 86_400_000_000_000 + ClockOf(t)
  {
    DaySplit(t);
  }

  /** A monthly step in UTC advances by the length of the current month, whatever
      the length of the next one. */
  lemma MonthlyStep(t: Instant)
    ensures Step(Monthly, Utc(), t) == t + MonthLength(MonthOf(DayOf(t))) * 86_400_000_000_000
    ensures ClockOf(Step(Monthly, Utc(), t)) == ClockOf(t)
  {
    UtcDate(t, 1, 0);
    MonthStartNext(MonthOf(DayOf(t)));
    assert AddDays(DayOf(t), 1, 0) == DayOf(t) + MonthLength(MonthOf(DayOf(t)));
  }

  lemma DailyStep(t: Instant, days: nat)
    ensures AddDate(Utc(), t, 0, days) == t + days * 86_400_000_000_000
  {
    UtcDate(t, 0, days);
    assert AddDays(DayOf(t), 0, days) == DayOf(t) + days;
  }

  /** The fixed steps: an hour in every zone, and in UTC a day and a week. */
  lemma FixedSteps(t: Instant, zone: Zone)
    ensures Step(Hourly, zone, t) == t + 3_600_000_000_000
    ensures Step(Daily, Utc(), t) == t + 86_400_000_000_000
    ensures Step(Weekly, Utc(), t) == t + 604_800_000_000_000
  {
    DailyStep(t, 1);
    DailyStep(t, 7);
  }

  /** How far apart the points of a series are, if they are evenly spaced. */
  function Period(kind: Kind): int
    requires kind.Hourly? || kind.Daily? || kind.Weekly?
  {
    match kind
    case Hourly => 3_600_000_000_000
    case Daily => 86_400_000_000_000
    case Weekly => 604_800_000_000_000
  }

  /** The n-th point of an hourly, daily or weekly UTC series. */
  lemma {:induction false} EvenOrbit(s: Series, from: Instant, n: nat)
    requires (s.kind.Hourly? || s.kind.Daily? || s.kind.Weekly?) && s.zone == Utc()
    ensures Orbit(s, from, n) == from + n * Period(s.kind)
  {
    if n > 0 {
      EvenOrbit(s, from, n - 1);
      FixedSteps(Orbit(s, from, n - 1), s.zone);
      assert n * Period(s.kind) == (n - 1) * Period(s.kind) + Period(s.kind);
    }
  }

  /** Without a skip list the next run of such a series is one period later, unless that is past the end. */
  lemma EvenNext(s: Series, from: Instant)
    requires (s.kind.Hourly? || s.kind.Daily? || s.kind.Weekly?) && s.zone == Utc() && s.skipped == []
    ensures NextIncluded(from, s)
         == if s.end.Some? && s.end.value < from + Period(s.kind) then NoMore else At(from + Period(s.kind))
  {
    FixedSteps(from, s.zone);
    assert !IsSkipped(from + Period(s.kind), []);
  }

  /** One of the first hundred points of the series. */
  ghost predicate EvenPoint(s: Series, t: Instant)
    requires s.kind.Hourly? || s.kind.Daily? || s.kind.Weekly?
  {
    exists n: nat :: n < 100 && t == s.base + n * Period(s.kind)
  }

  lemma EvenPoints(s: Series, durationS: int, lo: Instant, hi: Instant, t: Instant)
    requires (s.kind.Hourly? || s.kind.Daily? || s.kind.Weekly?) && s.zone == Utc()
    ensures Shown(s, durationS, lo, hi, s.base, 100, t) <==> Visible(s, durationS, lo, hi, t) && EvenPoint(s, t)
  {
    if n: nat :| n < 100 && t == Orbit(s, s.base, n) {
      EvenOrbit(s, s.base, n);
    }
    if n: nat :| n < 100 && t == s.base + n * Period(s.kind) {
      EvenOrbit(s, s.base, n);
      assert t == Orbit(s, s.base, n);
    }
  }

  lemma VisibleUnskipped(s: Series, durationS: int, lo: Instant, hi: Instant, t: Instant)
    requires s.skipped == []
    ensures Visible(s, durationS, lo, hi, t)
       <==> (s.end.Some? ==> t <= s.end.value) && t < hi && lo < t + durationS * 1_000_000_000
  {
    assert !IsSkipped(t, []);
  }

  lemma ShownExactly(s: Series, durationS: int, lo: Instant, hi: Instant, t: Instant)
    requires Recurring(s.kind) && Forward(s.zone)
    ensures SlotAt(t, durationS) in Expand(s, durationS, lo, hi) <==> Shown(s, durationS, lo, hi, s.base, 100, t)
  {
    ExpandExact(s, durationS, lo, hi);
  }

  /** The calendar shows it at every period from its base, the first hundred that meet the range and the end. */
  lemma EvenCalendar(s: Series, durationS: int, lo: Instant, hi: Instant, t: Instant)
    requires (s.kind.Hourly? || s.kind.Daily? || s.kind.Weekly?) && s.zone == Utc() && s.skipped == []
    ensures SlotAt(t, durationS) in Expand(s, durationS, lo, hi)
       <==> && (s.end.Some? ==> t <= s.end.value) && t < hi && lo < t + durationS * 1_000_000_000
            && EvenPoint(s, t)
  {
    UtcForward();
    ShownExactly(s, durationS, lo, hi, t);
    EvenPoints(s, durationS, lo, hi, t);
    VisibleUnskipped(s, durationS, lo, hi, t);
  }

  lemma UtcForward()
    ensures Forward(Utc())
  {
    forall t: Instant
      ensures t + HOUR <= AddDate(Utc(), t, 0, 1)
      ensures t + HOUR <= AddDate(Utc(), t, 0, 7)
      ensures t + HOUR <= AddDate(Utc(), t, 1, 0)
    {
      DailyStep(t, 1);
      DailyStep(t, 7);
      MonthlyStep(t);
      assert AddDate(Utc(), t, 1, 0) == Step(Monthly, Utc(), t);
    }
  }

  // ------------------------------------------------ drift of monthly series

  ghost predicate KeepsDay(s: Series)
    requires s.kind.Monthly?
  {
    forall n: nat :: MonthDay(DayOf(Orbit(s, s.base, n))) == MonthDay(DayOf(s.base))
  }

  lemma MonthlyDay(t: Instant)
    ensures var next := Step(Monthly, Utc(), t);
            DayOf(next) == MonthStart(MonthOf(DayOf(t)) + 1) + MonthDay(DayOf(t))
  {
    MonthlyStep(t);
    MonthStartNext(MonthOf(DayOf(t)));
  }

  /** A day that fits the next month is kept by a monthly step into it. */
  lemma FittingDayKept(t: Instant)
    requires MonthDay(DayOf(t)) < MonthLength(MonthOf(DayOf(t)) + 1)
    ensures var next := Step(Monthly, Utc(), t);
            MonthOf(DayOf(next)) == MonthOf(DayOf(t)) + 1 && MonthDay(DayOf(next)) == MonthDay(DayOf(t))
  {
    MonthlyDay(t);
    MonthStartNext(MonthOf(DayOf(t)) + 1);
    MonthOfUnique(DayOf(Step(Monthly, Utc(), t)), MonthOf(DayOf(t)) + 1);
  }

  lemma {:induction false} EarlyDayKept(s: Series, n: nat)
    requires s.kind.Monthly? && s.zone == Utc()
    requires MonthDay(DayOf(s.base)) < 28
    ensures MonthDay(DayOf(Orbit(s, s.base, n))) == MonthDay(DayOf(s.base))
  {
    if n > 0 {
      EarlyDayKept(s, n - 1);
      FittingDayKept(Orbit(s, s.base, n - 1));
    }
  }

  lemma KeepsDayAt(s: Series, n: nat)
    requires s.kind.Monthly? && KeepsDay(s)
    ensures MonthDay(DayOf(Orbit(s, s.base, n))) == MonthDay(DayOf(s.base))
  {
  }

  lemma KeptStep(t: Instant)
    requires MonthDay(DayOf(Step(Monthly, Utc(), t))) == MonthDay(DayOf(t))
    ensures MonthOf(DayOf(Step(Monthly, Utc(), t))) == MonthOf(DayOf(t)) + 1
  {
    MonthlyDay(t);
    SameDayNextMonth(DayOf(t), DayOf(Step(Monthly, Utc(), t)));
  }

  lemma KeptNext(s: Series, n: nat)
    requires s.kind.Monthly? && s.zone == Utc() && KeepsDay(s) && n > 0
    ensures MonthOf(DayOf(Orbit(s, s.base, n))) == MonthOf(DayOf(Orbit(s, s.base, n - 1))) + 1
  {
    var t := Orbit(s, s.base, n - 1);
    assert Orbit(s, s.base, n) == Step(Monthly, Utc(), t);
    KeepsDayAt(s, n);
    KeepsDayAt(s, n - 1);
    KeptStep(t);
  }

  lemma {:induction false} CountsUp(f: nat -> int, n: nat)
    requires forall k: nat :: f(k + 1) == f(k) + 1
    ensures f(n) == f(0) + n
  {
    if n > 0 {
      CountsUp(f, n - 1);
      assert f(n - 1 + 1) == f(n - 1) + 1;
    }
  }

  /** While the day of the month is kept, the orbit visits one month after the other. */
  lemma KeptDayVisitsMonths(s: Series, n: nat)
    requires s.kind.Monthly? && s.zone == Utc() && KeepsDay(s)
    ensures MonthOf(DayOf(Orbit(s, s.base, n))) == MonthOf(DayOf(s.base)) + n
  {
    var month := (k: nat) => MonthOf(DayOf(Orbit(s, s.base, k)));
    forall k: nat ensures month(k + 1) == month(k) + 1 {
      KeptNext(s, k + 1);
    }
    CountsUp(month, n);
  }

  lemma SameDayNextMonth(d: int, next: int)
    requires next == MonthStart(MonthOf(d) + 1) + MonthDay(d)
    requires MonthDay(next) == MonthDay(d)
    ensures MonthOf(next) == MonthOf(d) + 1
  {
    MonthStartInjective(MonthOf(next), MonthOf(d) + 1);
  }

  /** A monthly UTC series stays on its day of the month for ever exactly when it
      starts on one of the first 28: any later day drifts at a 28-day February at
      the latest. */
  lemma MonthlyKeepsDayIff(s: Series)
    requires s.kind.Monthly? && s.zone == Utc()
    ensures KeepsDay(s) <==> MonthDay(DayOf(s.base)) < 28
  {
    if MonthDay(DayOf(s.base)) < 28 {
      forall n: nat ensures MonthDay(DayOf(Orbit(s, s.base, n))) == MonthDay(DayOf(s.base)) {
        EarlyDayKept(s, n);
      }
    } else if KeepsDay(s) {
      var k := MonthOf(DayOf(s.base));
      var n: nat := ShortMonthAhead(k);
      KeptDayVisitsMonths(s, n);
      KeepsDayAt(s, n);
    }
  }

  lemma FebruaryLength(y: int)
    ensures MonthLength(12 * y + 1) == if Leap(y + 1) then 29 else 28
  {
    MonthOfYear(y, 1);
  }

  lemma NoTwoLeapYears(y: int)
    ensures Leap(y) ==> !Leap(y + 1)
  {
  }

  /** A 28-day February lies within three years. */
  lemma ShortMonthAhead(k: int) returns (n: nat)
    ensures n <= 36 && MonthLength(k + n) == 28
  {
    var y := k / 12 + 1;
    assert k == 12 * (k / 12) + k % 12;
    var february := 12 * y + 1;
    FebruaryLength(y);
    FebruaryLength(y + 1);
    NoTwoLeapYears(y + 1);
    if Leap(y + 1) {
      assert 12 * (y + 1) + 1 == february + 12;
      n := february + 12 - k;
    } else {
      n := february - k;
    }
  }

  /** The thirty-first day counted from the first of February. */
  lemma MonthAfterJanuary(january: int, day: int)
    requires january % 12 == 0 && day == MonthStart(january + 1) + 30
    ensures MonthOf(day) == january + 2
    ensures MonthDay(day) == if Leap(january / 12 + 1) then 1 else 2
  {
    assert january == 12 * (january / 12);
    FebruaryLength(january / 12);
    MonthStartNext(january + 1);
    MonthStartNext(january + 2);
    var length := MonthLength(january + 1);
    assert MonthStart(january + 2) == day - 30 + length;
    MonthOfUnique(day, january + 2);
  }

  lemma StepFromJanuary(t: Instant)
    requires MonthOf(DayOf(t)) % 12 == 0 && MonthDay(DayOf(t)) == 30
    ensures var january, next := MonthOf(DayOf(t)), DayOf(Step(Monthly, Utc(), t));
            MonthOf(next) == january + 2 && MonthDay(next) == if Leap(january / 12 + 1) then 1 else 2
  {
    MonthlyDay(t);
    MonthAfterJanuary(MonthOf(DayOf(t)), DayOf(Step(Monthly, Utc(), t)));
  }

  /** A series based on 31 January runs next in March: on the 3rd, or on the 2nd in a leap year. */
  lemma EndOfJanuaryDrifts(s: Series)
    requires s.kind.Monthly? && s.zone == Utc()
    requires MonthOf(DayOf(s.base)) % 12 == 0 && MonthDay(DayOf(s.base)) == 30
    ensures var january, next := MonthOf(DayOf(s.base)), DayOf(Orbit(s, s.base, 1));
            MonthOf(next) == january + 2 && MonthDay(next) == if Leap(january / 12 + 1) then 1 else 2
    ensures !KeepsDay(s)
  {
    assert Orbit(s, s.base, 1) == Step(Monthly, Utc(), s.base);
    StepFromJanuary(s.base);
    MonthlyKeepsDayIff(s);
  }
}
