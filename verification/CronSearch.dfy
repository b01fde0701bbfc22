/** The search for the next time at which a cron expression fires. */
module CronSearch {
  import opened Calendar
  import opened CronTime
  import opened CronExpr
  import opened CronForward
  import opened CronGoals

  const CRON_MAX_SECONDS: int := 60
  const CRON_MAX_MINUTES: int := 60
  const CRON_MAX_HOURS: int := 24
  const CRON_MAX_MONTHS: int := 12

  /** Fields whose lowest value cannot be that of the invalid time. */
  predicate Resettable(f: Field) {
    f == Second || f == Minute || f == Hours || f == DayOfMonth || f == Month
  }

  lemma LowestIsValid(f: Field, t: int)
    requires Resettable(f)
    ensures SetTo(f, t, Lowest(f)) != CRON_INVALID_INSTANT
    ensures t >= 0 ==> SetTo(f, t, Lowest(f)) >= 0
  {
    var u := SetTo(f, t, Lowest(f));
    match f {
      case Second => SecondSet(t, 0);
      case Minute => MinuteSet(t, 0);
      case Hours => HourSet(t, 0);
      case DayOfMonth => DaySet(t);
      case Month => MonthSet(t, 0);
    }
  }

  lemma DaySet(t: int)
    ensures SetTo(DayOfMonth, t, 1) == MonthFirst(MonthOf(Day(t))) * DAY + t % DAY
    ensures SetTo(DayOfMonth, t, 1) != -1 && (t >= 0 ==> SetTo(DayOfMonth, t, 1) >= 0)
  {
    hide MonthFirst, MonthOf;
    FirstOfMonth(Day(t), t % DAY);
    NotLast(MonthOf(Day(t)));
    if t >= 0 {
      EpochMonth(Day(t));
    }
  }

  lemma MonthSet(t: int, v: int)
    requires v >= 0
    ensures v == 0 ==> SetTo(Month, t, v) != -1
    ensures t >= 0 ==> SetTo(Month, t, v) >= 0
  {
    hide MonthFirst, MonthOf;
    var k := MonthOf(Day(t));
    Moved(t, v - k % 12);
    MdayRange(Day(t));
    January(k - k % 12);
    if t >= 0 {
      EpochMonth(Day(t));
      MonthsGrow(12 * 1970, k - k % 12 + v);
      EpochStart();
    }
    if v == 0 {
      EpochStart();
      MonthUnique(-1, 12 * 1970 - 1);
    }
  }

  lemma EpochStart()
    ensures MonthFirst(12 * 1970) == 0 && MonthFirst(12 * 1970 - 1) == -31
  {
    hide MonthFirst;
    EpochDay();
    NextMonth(12 * 1970 - 1);
  }

  lemma EpochDay()
    ensures MonthFirst(12 * 1970) == 0 && MonthLength(12 * 1970 - 1) == 31
  {}

  lemma EpochMonth(day: int)
    requires day >= 0
    ensures MonthOf(day) >= 12 * 1970 && MonthFirst(MonthOf(day)) >= 0
  {
    hide MonthFirst, MonthOf;
    EpochStart();
    if MonthOf(day) < 12 * 1970 {
      MonthsGrow(MonthOf(day) + 1, 12 * 1970);
    }
    MonthsGrow(12 * 1970, MonthOf(day));
  }

  /** No month begins on the last day before the epoch. */
  lemma NotLast(k: int)
    ensures MonthFirst(k) != -1
  {
    hide MonthFirst;
    EpochStart();
    if k >= 12 * 1970 {
      MonthsGrow(12 * 1970, k);
    } else {
      MonthsGrow(k, 12 * 1970 - 1);
    }
  }

  lemma AddsUp(f: Field, t: int, n: nat)
    requires t >= 0
    ensures AddTo(f, t, n) >= 0
  {
    hide MonthFirst, MonthOf;
    MonthsGrow(MonthOf(Day(t)), MonthOf(Day(t)) + n);
    MonthsGrow(MonthOf(Day(t)), MonthOf(Day(t)) + 12 * n);
  }

  /** Values in range keep a time after the epoch there. */
  lemma SetsUp(f: Field, t: int, v: int)
    requires Resettable(f) && f != DayOfMonth && t >= 0 && v >= 0
    ensures SetTo(f, t, v) >= 0
  {
    if f == Month {
      MonthSet(t, v);
    } else {
      hide MonthOf, MonthFirst;
    }
  }

  /** next_set_bit: -1 if there is none */
  method NextSetBit(bits: set<int>, max: int, fromIndex: int) returns (i: int, notfound: bool)
    requires fromIndex >= 0
    ensures notfound <==> FirstIn(bits, fromIndex, max) == -1
    ensures i == if notfound then 0 else FirstIn(bits, fromIndex, max)
  {
    i := fromIndex;
    while i < max
      invariant fromIndex <= i && FirstIn(bits, fromIndex, max) == FirstIn(bits, i, max)
    {
      if i in bits {
        return i, false;
      }
      i := i + 1;
    }
    i, notfound := 0, true;
  }

  /** reset_min */
  method ResetMin(cal: Tm, field: Field) returns (err: int)
    requires cal.Normal() && Resettable(field)
    modifies cal
    ensures cal.Normal() && cal.T() == SetTo(field, old(cal.T()), Lowest(field)) && err == 0
  {
    LowestIsValid(field, cal.T());
    hide SetTo, Tm.T, Tm.Normal;
    err := cal.SetField(field, Lowest(field));
  }

  ghost predicate AllResettable(fields: seq<Field>) {
    forall f <- fields :: Resettable(f)
  }

  /** reset_all_min */
  method ResetAll(cal: Tm, fields: seq<Field>) returns (err: int)
    requires cal.Normal() && AllResettable(fields)
    modifies cal
    ensures cal.Normal() && cal.T() == ResetAllMin(old(cal.T()), fields) && err == 0
  {
    hide SetTo, Tm.T, Tm.Normal;
    var i := 0;
    assert fields[0..] == fields;
    while i < |fields|
      invariant 0 <= i <= |fields| && cal.Normal() && ResetAllMin(cal.T(), fields[i..]) == ResetAllMin(old(cal.T()), fields)
    {
      assert fields[i..][1..] == fields[i + 1..];
      err := ResetMin(cal, fields[i]);
      if err != 0 {
        return;
      }
      i := i + 1;
    }
    err := 0;
    NoResets(cal.T());
    assert fields[i..] == [];
  }

  /** push_to_fields_arr */
  method Push(fields: seq<Field>, f: Field) returns (r: seq<Field>)
    ensures r == if f in fields then fields else fields + [f]
  {
    if f in fields {
      r := fields;
    } else {
      r := fields + [f];
    }
  }

  /** The fields of find_next that go together: a field, the next one, and how many values it has. */
  predicate Roll(f: Field, nf: Field, max: int) {
    || (f == Second && nf == Minute && max == 60)
    || (f == Minute && nf == Hours && max == 60)
    || (f == Hours && nf == DayOfWeek && max == 24)
    || (f == Month && nf == Years && max == 12)
  }

  /** find_next: the value found, and whether the calendar came to the invalid time. */
  method FindNext(bits: set<int>, max: int, value: int, cal: Tm, field: Field, nextField: Field, lower: seq<Field>)
    returns (next: int, res: int)
    requires cal.Normal() && Roll(field, nextField, max) && value == Value(field, cal.T()) && Within(bits, 0, max - 1) && AllResettable(lower)
    modifies cal
    ensures cal.Normal()
    ensures res == 0 ==> cal.T() == NextTime(bits, max, field, nextField, old(cal.T()), lower)
    ensures res == 0 ==> (next == value <==> value in bits)
    ensures value in bits || old(cal.T()) >= 0 ==> res == 0
  {
    hide SetTo, AddTo, Value, Lowest, ResetAllMin, Tm.T, Tm.Normal;
    ghost var t := cal.T();
    ValueBelow(field, nextField, max, t);
    var notfound;
    next, notfound := NextSetBit(bits, max, value);
    res := 0;
    if notfound {
      var err := cal.AddToField(nextField, 1);
      if err != 0 {
        if t >= 0 {
          AddsUp(nextField, t, 1);
        }
        return 0, 1;
      }
      err := ResetMin(cal, field);
      if err != 0 {
        return 0, 1;
      }
      ghost var x := Member(bits, 0, max - 1);
      next, notfound := NextSetBit(bits, max, 0);
      if t >= 0 {
        AddsUp(nextField, t, 1);
        LowestIsValid(field, AddTo(nextField, t, 1));
        SetsUp(field, SetTo(field, AddTo(nextField, t, 1), Lowest(field)), next);
      }
    } else if t >= 0 {
      SetsUp(field, t, next);
    }
    if notfound || next != value {
      var err := cal.SetField(field, next);
      if err != 0 {
        return 0, 1;
      }
      err := ResetAll(cal, lower);
      if err != 0 {
        return 0, 1;
      }
    }
  }

  lemma ValueBelow(f: Field, nf: Field, max: int, t: int)
    requires Roll(f, nf, max)
    ensures 0 <= Value(f, t) < max && Resettable(f)
  {}

  // ---- Days -----------------------------------------------------------------------------

  lemma DayAt(t: int, d: int, s: int)
    requires t == d * DAY + s && 0 <= s < 60
    ensures Day(t) == d
  {
    FloorIs(t, DAY, d, s);
  }

  lemma DayPlus(t: int, d: int, s: int)
    requires t == d * DAY + s && 0 <= s < DAY
    ensures Day(t) == d && AddTo(DayOfMonth, t, 1) == (d + 1) * DAY + s && Day(AddTo(DayOfMonth, t, 1)) == d + 1
    ensures Sec(AddTo(DayOfMonth, t, 1)) == Sec(t)
  {
    hide MonthOf, MonthFirst, Mday, Wday;
    FloorIs(t, DAY, d, s);
    FloorIs(t + DAY, DAY, d + 1, s);
    FloorIs(t + DAY, 60, t / 60 + 1440, t % 60);
  }

  /** find_next_day: the number of the next matching day, at whose start the calendar is then; or that of
      the day after a year in which none matches. */
  method FindNextDay(cal: Tm, e: Expr, dayOfMonth0: int, dayOfWeek0: int, resets: seq<Field>, ghost sec: bool)
    returns (dayOfMonth: int, res: int, ghost days: int)
    requires cal.Normal() && dayOfMonth0 == Mday(Day(cal.T())) && dayOfWeek0 == Wday(Day(cal.T()))
    requires AllResettable(resets) && (DayOk(e, Day(cal.T())) || ToMidnight(resets, sec, cal.T()))
    modifies cal
    ensures cal.Normal()
    ensures res == 0 ==> DaysOn(e, Day(old(cal.T())), days) && dayOfMonth == Mday(Day(old(cal.T())) + days)
    ensures res == 0 ==> cal.T() == if days == 0 then old(cal.T()) else (Day(old(cal.T())) + days) * DAY + Keep(sec, old(cal.T()))
    ensures DayOk(e, Day(old(cal.T()))) || old(cal.T()) >= 0 ==> res == 0
  {
    hide MonthOf, MonthFirst, Mday, Wday, Day, Sec, AddTo, SetTo, ResetAllMin, Tm.T, Lower, ToMidnight;
    ghost var t := cal.T();
    ghost var d0 := Day(t);
    var count, max := 0, 366;
    dayOfMonth, res := dayOfMonth0, 0;
    var dayOfWeek := dayOfWeek0;
    DaySplit(t);
    while !(dayOfMonth in e.daysOfMonth && dayOfWeek in e.daysOfWeek) && count < max
      invariant cal.Normal() && 0 <= count <= max && res == 0 && (t >= 0 ==> cal.T() >= 0)
      invariant dayOfMonth == Mday(d0 + count) && dayOfWeek == Wday(d0 + count) && forall d | d0 <= d < d0 + count :: !DayOk(e, d)
      invariant count > 0 ==> cal.T() == (d0 + count) * DAY + Keep(sec, t)
      invariant count == 0 ==> cal.T() == t
    {
      count := count + 1;
      ghost var s := if count == 1 then t % DAY else Keep(sec, t);
      DayPlus(cal.T(), d0 + count - 1, s);
      if t >= 0 {
        AddsUp(DayOfMonth, cal.T(), 1);
      }
      var err := cal.AddToField(DayOfMonth, 1);
      if err != 0 {
        return 0, 1, count;
      }
      dayOfMonth := cal.tm_mday;
      dayOfWeek := cal.tm_wday;
      ResetsToMidnight(t, d0 + count, s, sec, resets);
      var _ := ResetAll(cal, resets);
      if t >= 0 {
        NotBefore(d0, count, Keep(sec, t));
      }
    }
    days := count;
  }

  /** These resets lead to the first minute of the day. */
  ghost predicate ToMidnight(resets: seq<Field>, sec: bool, t: int) {
    resets == Lower(sec, 2) || (t % DAY < 60 && Below(resets, sec, 2))
  }

  lemma ResetsToMidnight(t: int, x: int, s: int, sec: bool, resets: seq<Field>)
    requires ToMidnight(resets, sec, t) && (s == t % DAY || s == Keep(sec, t))
    ensures ResetAllMin(x * DAY + s, resets) == x * DAY + Keep(sec, t)
  {
    hide ResetAllMin, Sec;
    SecIs(Keep(sec, t), sec, t);
    DaySplit(t);
    FloorIs(x * DAY + s, DAY, x, s);
    SecondOfDay(t, x, s);
    if resets == Lower(sec, 2) {
      ResetHour(sec, x * DAY + s);
      assert Keep(sec, x * DAY + s) == Keep(sec, t);
    } else {
      MidnightIs(t);
      assert DayOfMonth !in Lower(true, 2);
      ResetMidnight(x, s, resets);
    }
  }

  lemma SecondOfDay(t: int, x: int, s: int)
    requires s == t % DAY || s == Sec(t) || s == 0
    ensures s == t % DAY || s == Sec(t) ==> Sec(x * DAY + s) == Sec(t)
    ensures s == 0 ==> Sec(x * DAY + s) == 0
  {
    var q, r := s / 60, s % 60;
    FloorIs(x * DAY + s, 60, x * 1440 + q, r);
    var d := t / DAY;
    if s == t % DAY {
      FloorIs(t, 60, d * 1440 + q, r);
    }
  }

  lemma DaySplit(t: int)
    ensures t == Day(t) * DAY + t % DAY && 0 <= t % DAY < DAY && (t >= 0 ==> Day(t) >= 0)
  {}

  lemma DayIs(t: int, d: int)
    requires t / DAY == d
    ensures Day(t) == d
  {}

  lemma NotBefore(d: int, n: int, s: int)
    requires d >= 0 && n >= 0 && s >= 0
    ensures (d + n) * DAY + s >= 0
  {}

  // ---- The search -----------------------------------------------------------------------

  /** The first step of the search that did not match moved from t to u; the search goes on from there. */
  lemma MinuteMoves(e: Expr, t: int, sec: bool) returns (u: int)
    requires Parsed(e) && Min(t) !in e.minutes && Sec(t) in e.seconds && (NoGap(e.seconds) ==> LowKeep(e, sec, t))
    ensures u == NextTime(e.minutes, 60, Minute, Hours, t, Lower(sec, 0)) && Onward(e, t, u, sec) && NoneDue(e, t / 60, u / 60)
  {
    hide NextTime, Min, Sec, LowKeep, NoGap;
    u := NextTime(e.minutes, 60, Minute, Hours, t, Lower(sec, 0));
    MinuteStep(e, t, sec);
    MinutesPassed(e, t, u);
    DueNoFires(e, t / 60, u / 60);
    assert !Open(e);
    GoesOn(e, t, u, sec);
  }

  lemma HourMoves(e: Expr, t: int, sec: bool) returns (u: int)
    requires Parsed(e) && Hour(t) !in e.hours && Sec(t) in e.seconds && (NoGap(e.seconds) ==> LowKeep(e, sec, t))
    ensures u == NextTime(e.hours, 24, Hours, DayOfWeek, t, Lower(sec, 1)) && Onward(e, t, u, sec) && NoneDue(e, t / 60, u / 60)
  {
    hide NextTime, Hour, Sec, LowKeep, NoGap;
    u := NextTime(e.hours, 24, Hours, DayOfWeek, t, Lower(sec, 1));
    HourStep(e, t, sec);
    HoursPassed(e, t, u);
    HourParts(u / 3600, Keep(sec, t));
    TimeParts(t);
    TimeParts(u);
    SecIs(Keep(sec, t), sec, t);
    DueNoFires(e, t / 60, u / 60);
    assert !Open(e);
    GoesOn(e, t, u, sec);
  }

  lemma SecIs(s: int, sec: bool, t: int)
    requires s == Keep(sec, t)
    ensures Sec(s) == s && 0 <= s < 60
  {}

  lemma DayMoves(e: Expr, t: int, u: int, sec: bool)
    requires LateSec(e, t) && NextDayIs(e, t, u, sec) && (Exact(e) && NoGap(e.seconds) ==> LowKeep(e, sec, t))
    ensures Onward(e, t, u, sec) && NoneDue(e, t / 60, u / 60) && u % DAY < 60
  {
    hide DayOk, Sec, LowKeep, NoGap, LateSec, DaysFound;
    SecIs(Keep(sec, t), sec, t);
    FloorIs(u, DAY, Day(u), Keep(sec, t));
    FloorIs(u, 60, Day(u) * 1440, Keep(sec, t));
    SecondOf(Day(u) * 1440, Keep(sec, t));
    DaysPassed(e, t, u);
    DaySplit(t);
    DueNoFires(e, t / 60, u / 60);
    ClosedDay(e, Day(t));
    GoesOn(e, t, u, sec);
  }

  lemma ClosedDay(e: Expr, day: int)
    requires !(DayOk(e, day) && MonthOk(e, day))
    ensures !Open(e)
  {
    hide MonthOf, MonthFirst, Mday, Wday, Mon;
    MdayRange(day);
    assert 0 <= Wday(day) <= 6 && 0 <= Mon(day) <= 11;
  }

  /** A change of the month: to the beginning of the one found or of the one after. */
  lemma MonthMoves(e: Expr, t: int, sec: bool) returns (u: int)
    requires Parsed(e) && !MonthOk(e, Day(t)) && Sec(t) in e.seconds && DayOk(e, Day(t)) && (NoGap(e.seconds) ==> LowKeep(e, sec, t))
    ensures u == NextTime(e.months, 12, Month, Years, t, Lower(sec, 3)) && Onward(e, t, u, sec)
    ensures u == MonthFirst(Landing(e, Day(t))) * DAY + Keep(sec, t)
    ensures Year(Day(t)) <= Year(Day(u)) <= Year(Day(t)) + 2
    ensures Clear(e, Day(t)) ==> NoneFires(e, t / 60, u / 60)
    ensures Fresh(e, u)
  {
    hide NextTime, Sec, MonthFirst, MonthOf, Mday, Landing, LowKeep, NoGap, Clear, LandsRight, Fresh;
    u := NextTime(e.months, 12, Month, Years, t, Lower(sec, 3));
    var k := Landing(e, Day(t));
    MonthStep(e, t, sec);
    LandingLater(e, Day(t));
    SecIs(Keep(sec, t), sec, t);
    FirstTime(k, Keep(sec, t));
    LaterMonth(Day(t), k);
    DaySplit(t);
    ClosedDay(e, Day(t));
    if LandsRight(e) {
      LandsClear(e, Day(t));
    }
    if Clear(e, Day(t)) {
      MonthsPassed(e, t, u);
    }
    GoesOn(e, t, u, sec);
    FreshAtFirst(e, t, u, sec, k);
  }

  lemma FirstTime(k: int, s: int)
    requires 0 <= s < 60
    ensures var u := MonthFirst(k) * DAY + s;
      Day(u) == MonthFirst(k) && MonthOf(Day(u)) == k && Mday(Day(u)) == 1 && u / 60 == MonthFirst(k) * 1440 && Sec(u) == s && u % DAY == s
  {
    hide MonthFirst, MonthOf, Mday;
    var u := MonthFirst(k) * DAY + s;
    FloorIs(u, DAY, MonthFirst(k), s);
    FloorIs(u, 60, MonthFirst(k) * 1440, s);
    SecondOf(MonthFirst(k) * 1440, s);
    NextMonth(k);
    MonthLengths(k);
    MonthUnique(MonthFirst(k), k);
    MdayIs(MonthFirst(k));
  }

  lemma FreshAtFirst(e: Expr, t: int, u: int, sec: bool, k: int)
    requires Sec(t) in e.seconds && u == MonthFirst(k) * DAY + Keep(sec, t)
    ensures Fresh(e, u)
  {
    hide MonthFirst, MonthOf, Due;
    SecIs(Keep(sec, t), sec, t);
    FirstTime(k, Keep(sec, t));
    forall g | MonthFirst(k) * DAY <= g < u ensures !Final(e, g) {
      SecondOf(MonthFirst(k) * 1440, g - MonthFirst(k) * DAY);
    }
  }

  lemma LaterMonth(day: int, k: int)
    requires MonthOf(day) < k
    ensures day < MonthFirst(k)
  {
    hide MonthFirst, MonthOf;
    MonthsGrow(MonthOf(day) + 1, k);
  }

  /** Nothing was passed by in this month: then the first listed day has been found. */
  lemma FreshClear(e: Expr, t: int)
    requires Parsed(e) && OneDayFree(e) && Fresh(e, t) && DayOk(e, Day(t)) && !MonthOk(e, Day(t))
    ensures Clear(e, Day(t))
  {
    hide MonthFirst, MonthOf, Mday, Wday, Fresh;
    var day := Day(t);
    var n := NextMonthOf(e, MonthOf(day));
    MonthLengths(n);
    MdayRange(day);
    MdayIs(day);
    if Mday(day) > MonthLength(n) {
      if All(e.daysOfMonth, 1, 31) {
        var v := Member(e.daysOfWeek, 0, 6);
        var m := WeekdaySoon(MonthFirst(MonthOf(day)), v);
        var x := MonthFirst(MonthOf(day)) + m;
        MdayRange(x);
        NoMatchBefore(e, t, x);
        assert false;
      }
      forall a <- e.daysOfMonth ensures a > MonthLength(n) {
        var x := MonthFirst(MonthOf(day)) + a - 1;
        if a <= MonthLength(n) {
          CarryAtMost(MonthOf(day), a);
          assert 0 <= Wday(x) <= 6;
          NoMatchBefore(e, t, x);
        }
      }
    }
  }

  lemma NoMatchBefore(e: Expr, t: int, x: int)
    requires Parsed(e) && Fresh(e, t) && MonthFirst(MonthOf(Day(t))) <= x < Day(t)
    ensures !DayOk(e, x)
  {
    hide MonthFirst, MonthOf, Final, DayOk, Day;
    if DayOk(e, x) {
      var h := Member(e.hours, 0, 23);
      var m := Member(e.minutes, 0, 59);
      var s := LastSecond(e);
      var g := FinalAt(e, x, h, m, s);
      DayEnds(t);
    }
  }

  lemma SureClear(e: Expr, t: int, dot: int)
    requires Parsed(e) && Sure(e, t, dot) && DayOk(e, Day(t)) && !MonthOk(e, Day(t))
    ensures Clear(e, Day(t))
  {
    hide Fresh, FiresBy, LandsRight, Clear, DayOk, MonthOk, OneDayFree;
    if LandsRight(e) {
      LandsClear(e, Day(t));
    } else {
      FreshClear(e, t);
    }
  }

  lemma Stays(bits: set<int>, max: int, f: Field, nf: Field, t: int, lower: seq<Field>)
    requires Roll(f, nf, max) && Value(f, t) in bits
    ensures NextTime(bits, max, f, nf, t, lower) == t
  {
    hide Value, ResetAllMin, SetTo, AddTo;
    ValueBelow(f, nf, max, t);
  }

  /** What holds between the steps: either nothing moved since the seconds, and n fields match, or a
      search from a later time has ended, or the day has moved unnoticed. */
  ghost predicate Between(e: Expr, t0: int, t1: int, t: int, sec: bool, resets: seq<Field>, n: nat, dot: int)
    requires n <= 3
  {
    && AllResettable(resets) && Started(e, t0, t1, sec) && Ahead(e, t1, dot) && dot + 1900 <= Year(Day(t1))
    && (Sure(e, t0, dot) ==> Sure(e, t1, dot)) && t1 <= t && Ahead(e, t, dot)
    && ((t == t1 && resets == Lower(sec, n) && Matches(e, t, n)) || (n >= 1 && Below(resets, sec, n) && Later(e, t0, t, resets, n)))
  }

  ghost predicate Later(e: Expr, t0: int, t: int, resets: seq<Field>, n: nat) {
    Reached(e, t0, t) || (n == 3 && DayOfMonth in resets && Unnoticed(e, t0, t))
  }

  /** The day has moved, but its number is the same. */
  ghost predicate Unnoticed(e: Expr, t0: int, t: int) {
    && !DaysFound(e) && t % DAY < 60 && LateSec(e, t) && (MonthOk(e, Day(t)) ==> Fires(e, t) || !Sound(e))
    && t0 <= t && forall u | CallFrom(e, t0, u) :: u <= t
  }

  predicate Matches(e: Expr, t: int, n: nat) {
    Sec(t) in e.seconds && (n >= 1 ==> Min(t) in e.minutes) && (n >= 2 ==> Hour(t) in e.hours) && (n >= 3 ==> DayOk(e, Day(t)))
  }

  lemma BelowMore(lower: seq<Field>, sec: bool, n: nat)
    requires n <= 2
    ensures lower == Lower(sec, n) || Below(lower, sec, n) ==> Below(lower, sec, n + 1)
    ensures var f := [Minute, Hours, DayOfMonth][n]; Below(lower, sec, n) ==> Below(if f in lower then lower else lower + [f], sec, n + 1)
  {
    assert Lower(true, n + 1) == Lower(true, n) + [[Minute, Hours, DayOfMonth][n]];
    assert forall f <- Lower(sec, n) :: f in Lower(true, n);
  }

  /** A step whose field matched. */
  lemma Unmoved(e: Expr, t0: int, t1: int, t: int, sec: bool, resets: seq<Field>, n: nat, dot: int)
    requires n <= 2 && Between(e, t0, t1, t, sec, resets, n, dot)
    requires if n == 0 then Min(t) in e.minutes else if n == 1 then Hour(t) in e.hours else DayOk(e, Day(t))
    ensures var f := [Minute, Hours, DayOfMonth][n];
      Between(e, t0, t1, t, sec, if f in resets then resets else resets + [f], n + 1, dot)
  {
    hide Ahead, Sure, Reached, Started, Limit, Year, DayOk, Below;
    BelowMore(resets, sec, n);
    var f := [Minute, Hours, DayOfMonth][n];
    assert Lower(sec, n) + [f] == Lower(sec, n + 1);
  }

  /** The self-call of a part is the first that do_next makes, if nothing has moved before. */
  lemma CallsNext(e: Expr, t0: int, t: int, sec: bool, n: nat, u: int)
    requires n <= 3 && Started(e, t0, t, sec) && Matches(e, t, n)
    requires n == 0 ==> Min(t) !in e.minutes && u == NextTime(e.minutes, 60, Minute, Hours, t, Lower(sec, 0))
    requires n == 1 ==> Hour(t) !in e.hours && u == NextTime(e.hours, 24, Hours, DayOfWeek, t, Lower(sec, 1))
    requires n == 2 ==> !DayOk(e, Day(t)) && NextDayIs(e, t, u, sec) && Mday(Day(u)) != Mday(Day(t))
    requires n == 3 ==> !MonthOk(e, Day(t)) && u == NextTime(e.months, 12, Month, Years, t, Lower(sec, 3))
    ensures CallFrom(e, t0, u)
  {
    hide NextTime, Sec, Min, Hour, DayOk, MonthOk, Mday, Day, NextDayIs, LowKeep, NoFires, NoGap;
  }

  /** What a step leads to, from where the search begins again: then this search ends where that one does. */
  ghost predicate Goes(e: Expr, t0: int, t1: int, u: int, dot: int) {
    && Ahead(e, u, dot) && t1 < u && dot + 1900 <= Year(Day(u)) && (SureSoon(e, t0, dot) ==> SureSoon(e, u, dot))
    && forall v | Reached(e, u, v) :: Reached(e, t0, v)
  }

  /** A step that moved from t1 to u, where the search began again. */
  lemma Restarts(e: Expr, t0: int, t1: int, u: int, sec: bool, dot: int)
    requires Started(e, t0, t1, sec) && Ahead(e, t1, dot) && dot + 1900 <= Year(Day(t1)) && (Sure(e, t0, dot) ==> Sure(e, t1, dot))
    requires Onward(e, t1, u, sec) && NoneDue(e, t1 / 60, u / 60) && CallFrom(e, t0, u)
    ensures Goes(e, t0, t1, u, dot)
  {
    hide NoneDue, Onward, Started, Limit, Year, Sure, SureSoon, Reached, CallFrom, Ahead;
    StillAhead(e, t1, u, sec, dot);
    OnwardIsLater(e, t1, u, sec);
    if Sure(e, t1, dot) {
      SureOn(e, t1, u, sec, dot);
    }
    SureThere(e, t0, u, dot);
    forall v | Reached(e, u, v) ensures Reached(e, t0, v) {
      ReachedToo(e, t0, t1, u, sec, v);
    }
  }

  /** A step from a time that is no match, to which a search has led. */
  lemma RestartsLater(e: Expr, t0: int, t1: int, t: int, u: int, sec: bool, dot: int)
    requires t1 <= t && Ahead(e, t, dot) && dot + 1900 <= Year(Day(t)) && !DaysFound(e)
    requires Onward(e, t, u, sec) && NoneDue(e, t / 60, u / 60) && t0 <= t && forall w | CallFrom(e, t0, w) :: w <= t
    ensures Goes(e, t0, t1, u, dot)
  {
    hide NoneDue, Onward, Limit, Year, Sure, Reached, CallFrom, Ahead, Exact;
    StillAhead(e, t, u, sec, dot);
    OnwardIsLater(e, t, u, sec);
    NeverSure(e, t0, dot);
    forall v | Reached(e, u, v) ensures Reached(e, t0, v) {
      ReachedOn(e, t0, t, u, v);
    }
  }

  /** Nothing is sure where days may move unnoticed, and nothing is exact. */
  lemma NeverSure(e: Expr, t: int, dot: int)
    requires !DaysFound(e)
    ensures !SureSoon(e, t, dot) && !Sure(e, t, dot) && !Exact(e)
  {
    hide CallFrom, DaysFound, FiresBy, Fresh;
  }

  lemma SureOn(e: Expr, t: int, u: int, sec: bool, dot: int)
    requires Sure(e, t, dot) && Onward(e, t, u, sec) && NoneDue(e, t / 60, u / 60)
    ensures Sure(e, u, dot)
  {
    hide NoneDue, NoneFires, Onward, Sure, NoFinal, Fresh;
    DueNoFires(e, t / 60, u / 60);
    NoFinalPassed(e, t, u, sec);
    OnwardIsLater(e, t, u, sec);
    if Fresh(e, t) {
      StaysFresh(e, t, u);
    }
    StillSure(e, t, u, sec, dot);
  }

  lemma SureMeans(e: Expr, t: int, dot: int)
    ensures SureSoon(e, t, dot) ==> t >= 0
    ensures Sure(e, t, dot) ==> SureSoon(e, t, dot)
  {
    hide CallFrom, FiresBy, Fresh, DaysFound;
  }

  lemma AheadLimit(e: Expr, t: int, dot: int)
    requires Ahead(e, t, dot)
    ensures t < Limit(dot)
  {}

  lemma SureThere(e: Expr, t0: int, u: int, dot: int)
    requires CallFrom(e, t0, u)
    ensures SureSoon(e, t0, dot) ==> Sure(e, t0, dot) || Sure(e, u, dot)
    ensures Sure(e, u, dot) ==> SureSoon(e, u, dot)
  {
    hide Sure, CallFrom;
    SureMeans(e, u, dot);
    if SureSoon(e, t0, dot) && !Sure(e, t0, dot) {
      var v :| CallFrom(e, t0, v) && Sure(e, v, dot);
      OneCall(e, t0, u, v);
    }
  }

  lemma OnwardIsLater(e: Expr, t: int, u: int, sec: bool)
    requires Onward(e, t, u, sec)
    ensures t < u && Year(Day(t)) <= Year(Day(u)) && Sec(u) == Keep(sec, t)
  {
    hide Exact, LateSec;
    YearMonotone(Day(t), Day(u));
  }

  /** A search that ended elsewhere than at a match. */
  lemma ReachedMatches(e: Expr, t0: int, t: int)
    requires Reached(e, t0, t)
    ensures MonthOk(e, Day(t)) && LateSec(e, t)
    ensures !Matches(e, t, 3) ==> t % DAY < 60 && !Sound(e)
  {
    hide CallFrom, Exact, Sound;
    DayOfMinute(t);
  }

  /** A part whose own search ended at v. */
  lemma Ended(e: Expr, t0: int, t1: int, t: int, sec: bool, resets: seq<Field>, n: nat, dot: int, u: int, v: int)
    requires n <= 2 && Between(e, t0, t1, t, sec, resets, n, dot) && Goes(e, t0, t1, u, dot) && Reached(e, u, v) && Ahead(e, v, dot)
    ensures Between(e, t0, t1, v, sec, resets, n + 1, dot)
  {
    hide Ahead, Sure, SureSoon, Started, Limit, Year, Matches, Below, CallFrom, Fires, Exact, Midnight, Sound, NoFires;
    BelowMore(resets, sec, n);
  }

  /** From the time it is called at, do_next goes to v, and takes that for a match: the day has moved on to
      one of the same number. */
  ghost predicate StraysTo(e: Expr, t: int, v: int) {
    Matches(e, t, 2) && exists n :: Trap(e, Day(t), n) && MonthOk(e, Day(t) + n) && v == (Day(t) + n) * DAY
  }

  /** do_next, without the allocation of its lists */
  method DoNext(e: Expr, cal: Tm, dot: int) returns (res: int)
    requires Parsed(e) && cal.Normal() && dot + 1900 <= Year(Day(cal.T())) && Ahead(e, cal.T(), dot)
    modifies cal
    ensures cal.Normal()
    ensures res == 0 ==> Reached(e, old(cal.T()), cal.T()) && Ahead(e, cal.T(), dot)
    ensures SureSoon(e, old(cal.T()), dot) ==> res == 0
    ensures forall v | StraysTo(e, old(cal.T()), v) && old(cal.T()) >= 0 :: res == 0 && cal.T() == v
    decreases Limit(dot) - cal.T(), 4
  {
    hide NextTime, Reached, Sure, SureSoon, Ahead, Started, Matches, Tm.T, Limit, Year, Mday, Mon, Sec, Min, Hour, Day,
      Wday, Lower, Value, Between, CallFrom, StraysTo;
    ghost var t0 := cal.T();
    AheadLimit(e, t0, dot);
    SureMeans(e, t0, dot);
    StraysMeans(e, t0);
    var resets: seq<Field> := [];
    FieldsNow(cal);
    var second := cal.tm_sec;
    var updateSecond;
    updateSecond, res := FindNext(e.seconds, CRON_MAX_SECONDS, second, cal, Second, Minute, []);
    SecondStep(e, t0);
    if res != 0 {
      return;
    }
    ghost var sec := second == updateSecond;
    if second == updateSecond {
      resets := Push(resets, Second);
    }
    ghost var t1 := cal.T();
    Begins(e, t0, t1, sec, resets, dot);
    resets, res := MinutePart(e, cal, dot, resets, t0, t1, sec);
    if res != 0 {
      return;
    }
    resets, res := HourPart(e, cal, dot, resets, t0, t1, sec);
    if res != 0 {
      return;
    }
    resets, res := DayPart(e, cal, dot, resets, t0, t1, sec);
    if res != 0 {
      return;
    }
    res := MonthPart(e, cal, dot, resets, t0, t1, sec);
  }

  lemma StraysMeans(e: Expr, t: int)
    ensures forall v | StraysTo(e, t, v) ::
      && Sec(t) in e.seconds && Min(t) in e.minutes && Hour(t) in e.hours && Unseen(e, t, true, v) && MonthOk(e, Day(v))
  {
    hide Trap, MonthOk, Sec, Min, Hour;
    forall v | StraysTo(e, t, v) ensures Unseen(e, t, true, v) && MonthOk(e, Day(v)) {
      var n :| Trap(e, Day(t), n) && MonthOk(e, Day(t) + n) && v == (Day(t) + n) * DAY;
      DayAt(v, Day(t) + n, 0);
    }
  }

  /** The day moves on unnoticed, from the day of t to the first minute of that of v. */
  ghost predicate Unseen(e: Expr, t: int, sec: bool, v: int) {
    exists n :: Trap(e, Day(t), n) && v == (Day(t) + n) * DAY + Keep(sec, t)
  }

  lemma FieldsNow(cal: Tm)
    requires cal.Normal()
    ensures cal.tm_sec == Value(Second, cal.T()) == Sec(cal.T()) && cal.tm_min == Value(Minute, cal.T()) == Min(cal.T())
    ensures cal.tm_hour == Value(Hours, cal.T()) == Hour(cal.T()) && cal.tm_mon == Value(Month, cal.T()) == Mon(Day(cal.T()))
    ensures cal.tm_mday == Mday(Day(cal.T())) && cal.tm_wday == Wday(Day(cal.T())) && cal.tm_year == Year(Day(cal.T())) - 1900
  {
    hide Tm.T, Sec, Min, Hour, Mday, Wday, Mon, Year, Day;
  }

  lemma Begins(e: Expr, t0: int, t1: int, sec: bool, resets: seq<Field>, dot: int)
    requires Parsed(e) && t1 == NextTime(e.seconds, 60, Second, Minute, t0, []) && (sec <==> Sec(t0) in e.seconds)
    requires t0 <= t1 && Sec(t1) in e.seconds && (forall x | t0 <= x < t1 :: Sec(x) !in e.seconds)
    requires Ahead(e, t0, dot) && dot + 1900 <= Year(Day(t0)) && resets == (if sec then [Second] else [])
    ensures Between(e, t0, t1, t1, sec, resets, 0, dot)
  {
    hide Limit, Year, Started, Sure, Reached, NextTime;
    Starts(e, t0, t1, sec, dot);
    assert resets == Lower(sec, 0);
    YearMonotone(Day(t0), Day(t1));
  }

  method MinutePart(e: Expr, cal: Tm, dot: int, resets0: seq<Field>, ghost t0: int, ghost t1: int, ghost sec: bool) returns (resets: seq<Field>, res: int)
    requires Parsed(e) && cal.Normal() && Between(e, t0, t1, cal.T(), sec, resets0, 0, dot)
    modifies cal
    ensures cal.Normal() && (res == 0 ==> Between(e, t0, t1, cal.T(), sec, resets, 1, dot))
    ensures SureSoon(e, t0, dot) || Min(old(cal.T())) in e.minutes ==> res == 0
    ensures Min(old(cal.T())) in e.minutes ==> cal.T() == old(cal.T())
    decreases Limit(dot) - t1, 3
  {
    hide NextTime, Reached, Sure, SureSoon, Ahead, Started, Matches, Tm.T, Limit, Year, Mday, Mon, Sec, Min, Hour, Day,
      Wday, Lower, Value, Between, CallFrom, StraysTo, Onward, NoneDue, DayOk, NextDayIs, DaysOn, DaysFound, NoGap,
      LowKeep, Goes, Below, Unseen, MonthOk;
    ghost var t := cal.T();
    BetweenMeans(e, t0, t1, t, sec, resets0, 0, dot);
    FieldsNow(cal);
    resets := resets0;
    var minute := cal.tm_min;
    ghost var u := t;
    if minute in e.minutes {
      Stays(e.minutes, 60, Minute, Hours, t, resets);
      Unmoved(e, t0, t1, t, sec, resets, 0, dot);
    } else {
      u := MinuteGoes(e, t0, t1, t, sec, resets, dot);
      GoesMeans(e, t0, t1, u, dot);
    }
    var updateMinute;
    updateMinute, res := FindNext(e.minutes, CRON_MAX_MINUTES, minute, cal, Minute, Hours, resets);
    if res != 0 {
      return;
    }
    if minute == updateMinute {
      resets := Push(resets, Minute);
    } else {
      res := DoNext(e, cal, dot);
      if res != 0 {
        return;
      }
      Ended(e, t0, t1, t, sec, resets, 0, dot, u, cal.T());
    }
  }

  lemma MinuteGoes(e: Expr, t0: int, t1: int, t: int, sec: bool, resets: seq<Field>, dot: int) returns (u: int)
    requires Parsed(e) && Between(e, t0, t1, t, sec, resets, 0, dot) && Min(t) !in e.minutes
    ensures u == NextTime(e.minutes, 60, Minute, Hours, t, resets) && Goes(e, t0, t1, u, dot)
  {
    hide NextTime, Reached, Sure, Ahead, Year, Min, CallFrom, Goes, NoFires, LowKeep, NoGap, Onward, NoneDue;
    ListedIsLate(e, t);
    u := MinuteMoves(e, t, sec);
    CallsNext(e, t0, t, sec, 0, u);
    Restarts(e, t0, t, u, sec, dot);
  }

  lemma ListedIsLate(e: Expr, t: int)
    requires Sec(t) in e.seconds
    ensures LateSec(e, t)
  {}

  lemma GoesMeans(e: Expr, t0: int, t1: int, u: int, dot: int)
    requires Goes(e, t0, t1, u, dot)
    ensures Ahead(e, u, dot) && t1 < u < Limit(dot) && dot + 1900 <= Year(Day(u)) && (SureSoon(e, t0, dot) ==> SureSoon(e, u, dot))
  {
    hide SureSoon, Reached, Year;
  }

  /** If the next field does not match, nothing moved since the seconds, or the search stands in the first
      minute of a day. */
  lemma BetweenMeans(e: Expr, t0: int, t1: int, t: int, sec: bool, resets: seq<Field>, n: nat, dot: int)
    requires n <= 3 && Between(e, t0, t1, t, sec, resets, n, dot)
    ensures AllResettable(resets) && (t0 >= 0 ==> t >= 0) && t1 < Limit(dot) && t1 <= t && (SureSoon(e, t0, dot) ==> t0 >= 0)
    ensures n == 2 && !DayOk(e, Day(t)) ==> ToMidnight(resets, sec, t)
  {
    hide Ahead, Limit, Year, Lower, MonthOk, DayOk, Sure, CallFrom, Exact, NextTime, LowKeep, NoGap, Below, Sound;
    AheadLimit(e, t1, dot);
    if Reached(e, t0, t) {
      ReachedMatches(e, t0, t);
    }
  }

  method HourPart(e: Expr, cal: Tm, dot: int, resets0: seq<Field>, ghost t0: int, ghost t1: int, ghost sec: bool) returns (resets: seq<Field>, res: int)
    requires Parsed(e) && cal.Normal() && Between(e, t0, t1, cal.T(), sec, resets0, 1, dot)
    modifies cal
    ensures cal.Normal() && (res == 0 ==> Between(e, t0, t1, cal.T(), sec, resets, 2, dot))
    ensures SureSoon(e, t0, dot) || Hour(old(cal.T())) in e.hours ==> res == 0
    ensures Hour(old(cal.T())) in e.hours ==> cal.T() == old(cal.T())
    decreases Limit(dot) - t1, 2
  {
    hide NextTime, Reached, Sure, SureSoon, Ahead, Started, Matches, Tm.T, Limit, Year, Mday, Mon, Sec, Min, Hour, Day,
      Wday, Lower, Value, Between, CallFrom, StraysTo, Onward, NoneDue, DayOk, NextDayIs, DaysOn, DaysFound, NoGap,
      LowKeep, Goes, Below, Unseen, MonthOk;
    ghost var t := cal.T();
    BetweenMeans(e, t0, t1, t, sec, resets0, 1, dot);
    FieldsNow(cal);
    resets := resets0;
    var hour := cal.tm_hour;
    ghost var u := t;
    if hour in e.hours {
      Stays(e.hours, 24, Hours, DayOfWeek, t, resets);
      Unmoved(e, t0, t1, t, sec, resets, 1, dot);
    } else {
      u := HourGoes(e, t0, t1, t, sec, resets, dot);
      GoesMeans(e, t0, t1, u, dot);
    }
    var updateHour;
    updateHour, res := FindNext(e.hours, CRON_MAX_HOURS, hour, cal, Hours, DayOfWeek, resets);
    if res != 0 {
      return;
    }
    if hour == updateHour {
      resets := Push(resets, Hours);
    } else {
      res := DoNext(e, cal, dot);
      if res != 0 {
        return;
      }
      Ended(e, t0, t1, t, sec, resets, 1, dot, u, cal.T());
    }
  }

  lemma HourGoes(e: Expr, t0: int, t1: int, t: int, sec: bool, resets: seq<Field>, dot: int) returns (u: int)
    requires Parsed(e) && Between(e, t0, t1, t, sec, resets, 1, dot) && Hour(t) !in e.hours
    ensures u == NextTime(e.hours, 24, Hours, DayOfWeek, t, resets) && Goes(e, t0, t1, u, dot)
  {
    hide NextTime, Sure, Ahead, Year, Hour, Min, CallFrom, Goes, LowKeep, NoGap, Onward, NoneDue, Below, Reached, Lower, Sec, Day, NoFires;
    if t == t1 && resets == Lower(sec, 1) && Matches(e, t, 1) {
      ListedIsLate(e, t);
      u := HourMoves(e, t, sec);
      CallsNext(e, t0, t, sec, 1, u);
      Restarts(e, t0, t, u, sec, dot);
    } else {
      NoMatch(e, t0, t);
      LaterYear(t1, t, dot);
      u := HourMovesLater(e, t, sec, resets);
      RestartsLater(e, t0, t1, t, u, sec, dot);
    }
  }

  /** Where a search ended elsewhere than at a match, days may move unnoticed. */
  lemma NoMatch(e: Expr, t0: int, t: int)
    requires Reached(e, t0, t) && !Matches(e, t, 3)
    ensures t % DAY < 60 && LateSec(e, t) && MonthOk(e, Day(t)) && !Sound(e) && !DaysFound(e)
    ensures t0 <= t && forall w | CallFrom(e, t0, w) :: w <= t
  {
    hide CallFrom, Exact, Sound, DaysFound, LateSec, MonthOk;
    ReachedMatches(e, t0, t);
    FoundSoundToo(e);
  }

  lemma FoundSoundToo(e: Expr)
    ensures DaysFound(e) ==> Sound(e)
  {
    hide DaysFound, Sound;
    if DaysFound(e) {
      FoundSound(e);
    }
  }

  lemma LaterYear(t1: int, t: int, dot: int)
    requires t1 <= t && dot + 1900 <= Year(Day(t1))
    ensures dot + 1900 <= Year(Day(t))
  {
    DaysInOrder(t1, t);
    YearMonotone(Day(t1), Day(t));
  }

  lemma HourMovesLater(e: Expr, t: int, sec: bool, resets: seq<Field>) returns (u: int)
    requires Parsed(e) && Hour(t) !in e.hours && t % DAY < 60 && LateSec(e, t) && Below(resets, sec, 1) && !Sound(e)
    ensures u == NextTime(e.hours, 24, Hours, DayOfWeek, t, resets) && Onward(e, t, u, sec) && NoneDue(e, t / 60, u / 60)
  {
    hide NextTime, Hour, Sec, LateSec, Sound, Below, DaysFound, SecondsRight, LandsRight, Parsed, NoneDue, NoneFires, Onward, Lower;
    u := NextTime(e.hours, 24, Hours, DayOfWeek, t, resets);
    HourMidnight(e, t, sec, resets);
    HoursPassed(e, t, u);
    HourParts(u / 3600, Keep(sec, t));
    TimeParts(t);
    TimeParts(u);
    SecIs(Keep(sec, t), sec, t);
    FoundSoundToo(e);
    GoesOn(e, t, u, sec);
  }

  method DayPart(e: Expr, cal: Tm, dot: int, resets0: seq<Field>, ghost t0: int, ghost t1: int, ghost sec: bool) returns (resets: seq<Field>, res: int)
    requires Parsed(e) && cal.Normal() && Between(e, t0, t1, cal.T(), sec, resets0, 2, dot)
    modifies cal
    ensures cal.Normal() && (res == 0 ==> Between(e, t0, t1, cal.T(), sec, resets, 3, dot))
    ensures SureSoon(e, t0, dot) ==> res == 0
    ensures forall v | Unseen(e, old(cal.T()), sec, v) && t0 >= 0 :: res == 0 && cal.T() == v
    decreases Limit(dot) - t1, 1
  {
    hide NextTime, Reached, Sure, SureSoon, Ahead, Started, Matches, Tm.T, Limit, Year, Mday, Mon, Sec, Min, Hour, Day,
      Wday, Lower, Value, Between, CallFrom, StraysTo, Onward, NoneDue, DayOk, NextDayIs, DaysOn, DaysFound, NoGap,
      LowKeep, Goes, Below, Unseen, MonthOk;
    ghost var t := cal.T();
    BetweenMeans(e, t0, t1, t, sec, resets0, 2, dot);
    FieldsNow(cal);
    resets := resets0;
    var dayOfWeek := cal.tm_wday;
    var dayOfMonth := cal.tm_mday;
    if DayOk(e, Day(t)) {
      Unmoved(e, t0, t1, t, sec, resets, 2, dot);
    }
    var updateDayOfMonth;
    ghost var days;
    updateDayOfMonth, res, days := FindNextDay(cal, e, dayOfMonth, dayOfWeek, resets, sec);
    if res != 0 {
      return;
    }
    OnlyTrap(e, t, sec, days, cal.T());
    if dayOfMonth == updateDayOfMonth {
      resets := Push(resets, DayOfMonth);
      if !DayOk(e, Day(t)) {
        Stray(e, t0, t1, t, sec, resets0, dot, days, cal.T());
      }
    } else {
      ghost var u := cal.T();
      DayGoes(e, t0, t1, t, sec, resets, dot, days, u);
      GoesMeans(e, t0, t1, u, dot);
      res := DoNext(e, cal, dot);
      if res != 0 {
        return;
      }
      Ended(e, t0, t1, t, sec, resets, 2, dot, u, cal.T());
    }
  }

  /** Days move at most one way; if they do not, this one matches. */
  lemma OnlyTrap(e: Expr, t: int, sec: bool, n: int, u: int)
    requires DaysOn(e, Day(t), n) && u == if n == 0 then t else (Day(t) + n) * DAY + Keep(sec, t)
    ensures forall v | Unseen(e, t, sec, v) :: u == v && Mday(Day(t) + n) == Mday(Day(t))
    ensures n >= 0 && (DayOk(e, Day(t)) <==> n == 0)
  {
    hide DayOk, Mday, Day, DaysOn, Keep;
    forall v | Unseen(e, t, sec, v) ensures u == v && Mday(Day(t) + n) == Mday(Day(t)) {
      var m :| Trap(e, Day(t), m) && v == (Day(t) + m) * DAY + Keep(sec, t);
      NotLater(e, Day(t), m, n);
      NotLater(e, Day(t), n, m);
      DaysMoved(e, Day(t), n);
    }
    DaysMoved(e, Day(t), n);
  }

  lemma DaysMoved(e: Expr, d: int, n: int)
    requires DaysOn(e, d, n)
    ensures n >= 0 && (DayOk(e, d) <==> n == 0)
  {
    hide DayOk;
  }

  /** The day moves on and has another number. */
  lemma DayGoes(e: Expr, t0: int, t1: int, t: int, sec: bool, resets: seq<Field>, dot: int, n: int, u: int)
    requires Parsed(e) && Between(e, t0, t1, t, sec, resets, 2, dot) && DaysOn(e, Day(t), n) && n > 0 && u == (Day(t) + n) * DAY + Keep(sec, t)
    requires !DayOk(e, Day(t)) && Mday(Day(t) + n) != Mday(Day(t))
    ensures Goes(e, t0, t1, u, dot)
  {
    hide Sure, Ahead, Year, CallFrom, Goes, NoFires, LowKeep, NoGap, Onward, NoneDue, Below, Exact, Sound, Fires, DayOk,
      Day, Mday, DaysOn, Sec, Min, Hour, NextTime;
    SecIs(Keep(sec, t), sec, t);
    DayAt(u, Day(t) + n, Keep(sec, t));
    assert NextDayIs(e, t, u, sec);
    if Reached(e, t0, t) {
      NoMatch(e, t0, t);
      LaterYear(t1, t, dot);
      NeverSure(e, t0, dot);
      DayMoves(e, t, u, sec);
      RestartsLater(e, t0, t1, t, u, sec, dot);
    } else {
      ListedIsLate(e, t);
      DayMoves(e, t, u, sec);
      CallsNext(e, t0, t, sec, 2, u);
      Restarts(e, t0, t, u, sec, dot);
    }
  }

  /** The day moves on and has the same number. */
  lemma Stray(e: Expr, t0: int, t1: int, t: int, sec: bool, resets: seq<Field>, dot: int, n: int, u: int)
    requires Parsed(e) && Between(e, t0, t1, t, sec, resets, 2, dot) && DaysOn(e, Day(t), n) && n > 0 && u == (Day(t) + n) * DAY + Keep(sec, t)
    requires !DayOk(e, Day(t)) && Mday(Day(t) + n) == Mday(Day(t))
    ensures Between(e, t0, t1, u, sec, if DayOfMonth in resets then resets else resets + [DayOfMonth], 3, dot)
  {
    hide Sure, Ahead, Year, CallFrom, NoFires, LowKeep, NoGap, Onward, NoneDue, Below, Exact, Sound, Fires, DayOk,
      MonthOk, Day, Mday, DaysOn, DaysFound, Sec, Min, Hour, NextTime;
    SecIs(Keep(sec, t), sec, t);
    DayAt(u, Day(t) + n, Keep(sec, t));
    assert NextDayIs(e, t, u, sec);
    StrayFound(e, Day(t), n);
    NeverSure(e, t0, dot);
    if Reached(e, t0, t) {
      NoMatch(e, t0, t);
    } else {
      ListedIsLate(e, t);
      NoCall(e, t0, t, sec, u);
      if Sound(e) && MonthOk(e, Day(u)) {
        StrayFires(e, t, sec, n, u);
      }
    }
    DayMoves(e, t, u, sec);
    OnwardIsLater(e, t, u, sec);
    StillAhead(e, t, u, sec, dot);
    KeepIsLate(e, t, u, sec);
    BelowMore(resets, sec, 2);
    BelowLower(sec);
  }

  lemma StrayFound(e: Expr, d: int, n: int)
    requires !DayOk(e, d) && DaysOn(e, d, n) && Mday(d + n) == Mday(d)
    ensures !DaysFound(e) && Trap(e, d, n)
  {
    hide DayOk, Mday;
  }

  lemma KeepIsLate(e: Expr, t: int, u: int, sec: bool)
    requires LateSec(e, t) && Sec(u) == Keep(sec, t)
    ensures LateSec(e, u)
  {}

  lemma BelowLower(sec: bool)
    ensures Below(Lower(sec, 2), sec, 2)
  {}

  /** No call follows on a day of the same number. */
  lemma NoCall(e: Expr, t0: int, t: int, sec: bool, u: int)
    requires Started(e, t0, t, sec) && Matches(e, t, 2) && !DayOk(e, Day(t)) && NextDayIs(e, t, u, sec) && Mday(Day(u)) == Mday(Day(t))
    ensures forall w :: !CallFrom(e, t0, w)
  {
    hide NextTime, Sec, Min, Hour, DayOk, MonthOk, Mday, Day, NextDayIs, LowKeep, NoFires, NoGap;
    forall w ensures !CallFrom(e, t0, w) {
      if CallFrom(e, t0, w) {
        OneDay(e, t, u, w, sec);
      }
    }
  }

  lemma StrayFires(e: Expr, t: int, sec: bool, n: int, u: int)
    requires Sound(e) && Trap(e, Day(t), n) && MonthOk(e, Day(t) + n) && u == (Day(t) + n) * DAY + Keep(sec, t) && Sec(t) in e.seconds
    ensures Fires(e, u)
  {
    hide DayOk, MonthOk, Trap;
    SecIs(Keep(sec, t), sec, t);
    DayAt(u, Day(t) + n, Keep(sec, t));
    FloorIs(u, DAY, Day(t) + n, Keep(sec, t));
    MidnightIs(u);
    DayOfMinute(u);
  }

  method MonthPart(e: Expr, cal: Tm, dot: int, resets: seq<Field>, ghost t0: int, ghost t1: int, ghost sec: bool) returns (res: int)
    requires Parsed(e) && cal.Normal() && Between(e, t0, t1, cal.T(), sec, resets, 3, dot)
    modifies cal
    ensures cal.Normal() && (res == 0 ==> Reached(e, t0, cal.T()) && Ahead(e, cal.T(), dot))
    ensures SureSoon(e, t0, dot) || MonthOk(e, Day(old(cal.T()))) ==> res == 0
    ensures MonthOk(e, Day(old(cal.T()))) ==> cal.T() == old(cal.T())
    decreases Limit(dot) - t1, 0
  {
    hide NextTime, Reached, Sure, SureSoon, Ahead, Started, Matches, Tm.T, Limit, Year, Mday, Mon, Sec, Min, Hour, Day,
      Wday, Lower, Value, Between, CallFrom, StraysTo, Onward, NoneDue, DayOk, NextDayIs, DaysOn, DaysFound, NoGap,
      LowKeep, Goes, Below, Unseen, MonthOk;
    ghost var t := cal.T();
    BetweenMeans(e, t0, t1, t, sec, resets, 3, dot);
    FieldsNow(cal);
    MonthIsMon(e, Day(t));
    var month := cal.tm_mon;
    if month in e.months {
      Stays(e.months, 12, Month, Years, t, resets);
      AllMatch(e, t0, t1, t, sec, resets, dot);
    }
    var updateMonth;
    updateMonth, res := FindNext(e.months, CRON_MAX_MONTHS, month, cal, Month, Years, resets);
    if res != 0 {
      return;
    }
    if month != updateMonth {
      ghost var u := MonthChanges(e, t0, t1, t, sec, resets, dot);
      FieldsNow(cal);
      if (cal.tm_year - dot) % 0x1_0000_0000 > 4 {
        return -1;
      }
      AheadAgain(e, u, dot);
      AheadLimit(e, u, dot);
      res := DoNext(e, cal, dot);
    }
  }

  lemma MonthIsMon(e: Expr, day: int)
    ensures MonthOk(e, day) <==> Mon(day) in e.months
  {}

  lemma AllMatch(e: Expr, t0: int, t1: int, t: int, sec: bool, resets: seq<Field>, dot: int)
    requires Between(e, t0, t1, t, sec, resets, 3, dot) && Mon(Day(t)) in e.months
    ensures Reached(e, t0, t) && Ahead(e, t, dot)
  {
    hide Ahead, Started, Year, Lower, Sure, Reached, Below;
    if t == t1 && Matches(e, t, 3) {
      DayOfMinute(t);
      ReachedAtOnce(e, t0, t, sec);
    } else if !Reached(e, t0, t) {
      UnnoticedMonth(e, t0, t);
    }
  }

  lemma UnnoticedMonth(e: Expr, t0: int, t: int)
    requires Unnoticed(e, t0, t) && MonthOk(e, Day(t))
    ensures Reached(e, t0, t)
  {
    hide Fires, CallFrom, Sound, LateSec;
    NeverSure(e, t0, 0);
  }

  /** The month changes: the search starts again there unless it is too late. */
  lemma MonthChanges(e: Expr, t0: int, t1: int, t: int, sec: bool, resets: seq<Field>, dot: int) returns (u: int)
    requires Parsed(e) && Between(e, t0, t1, t, sec, resets, 3, dot) && Mon(Day(t)) !in e.months
    ensures u == NextTime(e.months, 12, Month, Years, t, resets) && t1 < u
    ensures dot + 1900 <= Year(Day(u)) < dot + 1920 && (SureSoon(e, t0, dot) ==> SureSoon(e, u, dot) && Year(Day(u)) <= dot + 1904)
    ensures forall v :: Reached(e, u, v) ==> Reached(e, t0, v)
  {
    hide NextTime, Reached, Sure, SureSoon, Ahead, Limit, Year, Mon, Sec, Lower, Onward, CallFrom, Landing, Clear, DayOk,
      LowKeep, NoGap, NoFires, Exact, Below, Started, Unnoticed;
    MonthIsMon(e, Day(t));
    LaterYear(t1, t, dot);
    AheadLimit(e, t, dot);
    BeforeLimit(t, dot);
    if Reached(e, t0, t) {
      ReachedMatches(e, t0, t);
    }
    if Unnoticed(e, t0, t) && DayOfMonth in resets && Below(resets, sec, 3) {
      u := MonthMovesLater(e, t0, t, sec, resets, dot);
    } else {
      u := MonthMovesOn(e, t0, t, sec, dot);
    }
  }

  lemma MonthMovesOn(e: Expr, t0: int, t: int, sec: bool, dot: int) returns (u: int)
    requires Parsed(e) && Started(e, t0, t, sec) && Matches(e, t, 3) && !MonthOk(e, Day(t)) && (Sure(e, t0, dot) ==> Sure(e, t, dot))
    ensures u == NextTime(e.months, 12, Month, Years, t, Lower(sec, 3)) && t < u
    ensures Year(Day(t)) <= Year(Day(u)) <= Year(Day(t)) + 2 && (SureSoon(e, t0, dot) ==> SureSoon(e, u, dot) && Year(Day(u)) <= dot + 1904)
    ensures forall v :: Reached(e, u, v) ==> Reached(e, t0, v)
  {
    hide NextTime, Reached, Sure, SureSoon, Year, Mon, Sec, Lower, Onward, CallFrom, Landing, Clear, DayOk, LowKeep, NoGap, NoFires, Exact, Fresh;
    ListedIsLate(e, t);
    u := MonthMoves(e, t, sec);
    CallsNext(e, t0, t, sec, 3, u);
    OnwardIsLater(e, t, u, sec);
    if SureSoon(e, t0, dot) {
      SureThere(e, t0, u, dot);
      if Sure(e, t0, dot) {
        SureClear(e, t, dot);
        StillSure(e, t, u, sec, dot);
      }
      SureYear(e, u, dot);
    }
    forall v | Reached(e, u, v) ensures Reached(e, t0, v) {
      ReachedToo(e, t0, t, u, sec, v);
    }
  }

  /** The same for a day that had moved unnoticed. */
  lemma MonthMovesLater(e: Expr, t0: int, t: int, sec: bool, resets: seq<Field>, dot: int) returns (u: int)
    requires Parsed(e) && Unnoticed(e, t0, t) && !MonthOk(e, Day(t)) && Below(resets, sec, 3) && DayOfMonth in resets
    ensures u == NextTime(e.months, 12, Month, Years, t, resets) && t < u && !SureSoon(e, t0, dot)
    ensures Year(Day(t)) <= Year(Day(u)) <= Year(Day(t)) + 2
    ensures forall v :: Reached(e, u, v) ==> Reached(e, t0, v)
  {
    hide NextTime, Reached, Sec, CallFrom, Landing, MonthOk, Below, MonthFirst, MonthOf, Sound, Fires, LateSec, Exact, SureSoon, Sure, Mday;
    MonthMidnight(e, t, sec, resets);
    u := NextTime(e.months, 12, Month, Years, t, resets);
    LandsLater(e, t, sec, u);
    NeverSure(e, t0, dot);
    forall v | Reached(e, u, v) ensures Reached(e, t0, v) {
      ReachedOn(e, t0, t, u, v);
    }
  }

  lemma LandsLater(e: Expr, t: int, sec: bool, u: int)
    requires Parsed(e) && !MonthOk(e, Day(t)) && u == MonthFirst(Landing(e, Day(t))) * DAY + Keep(sec, t)
    ensures t < u && Year(Day(t)) <= Year(Day(u)) <= Year(Day(t)) + 2
  {
    hide MonthFirst, MonthOf, Landing, MonthOk, Mday;
    var k := Landing(e, Day(t));
    LandingLater(e, Day(t));
    SecIs(Keep(sec, t), sec, t);
    FirstTime(k, Keep(sec, t));
    LaterMonth(Day(t), k);
    DayEnds(t);
  }

  lemma SureYear(e: Expr, t: int, dot: int)
    requires Sure(e, t, dot)
    ensures Year(Day(t)) <= dot + 1904
  {
    hide Year, Final, MonthOk, Fresh, LandsRight, DaysFound;
    var f :| t <= f && Final(e, f) && MonthOk(e, Day(f)) && Year(Day(f)) <= dot + 1904;
    YearMonotone(Day(t), Day(f));
  }

  lemma BeforeLimit(t: int, dot: int)
    requires t < Limit(dot)
    ensures Year(Day(t)) < dot + 1909
  {
    hide MonthFirst, MonthOf;
    DaySplit(t);
    BeforeMonth(Day(t), 12 * (dot + 1909));
  }

  // ---- cron_next ------------------------------------------------------------------------

  /** The expression fires after the date, in its year or one of the four after it. */
  ghost predicate FiresSoon(e: Expr, date: int) {
    exists f :: date < f && Fires(e, f) && Year(Day(f)) <= Year(Day(date)) + 4
  }

  /** The search from the date goes on behind a time f at which the expression fires, and finds a time there. */
  ghost predicate Misses(e: Expr, date: int) {
    date >= 0 && exists u, f :: CallFrom(e, date, u) && date < f < u && Fires(e, f) && Sure(e, u, Year(Day(date)) - 1900)
  }

  /** The search from the date comes to a time at which the expression does not fire. */
  ghost predicate Strays(e: Expr, date: int) {
    date >= 0 && exists v :: StraysTo(e, date, v) && !Fires(e, v)
  }

  /** cron_next: the next time at which the expression fires, or -1 */
  method CronNext(e: Expr, date: int) returns (r: int)
    requires Parsed(e)
    ensures r != CRON_INVALID_INSTANT ==> date < r
    ensures r != CRON_INVALID_INSTANT && Sound(e) ==> Fires(e, r)
    ensures r != CRON_INVALID_INSTANT && Exact(e) ==> IsNext(e, date, r)
    ensures Strays(e, date) ==> r != CRON_INVALID_INSTANT && !Fires(e, r)
    ensures Misses(e, date) ==> r != CRON_INVALID_INSTANT && !IsNext(e, date, r)
    ensures DaysFound(e) && LandsRight(e) && FiresSoon(e, date) && date >= 0 ==> r != CRON_INVALID_INSTANT
    ensures DaysFound(e) && SafeMonths(e) && date >= 0 ==> r != CRON_INVALID_INSTANT
  {
    hide Reached, Sure, SureSoon, Ahead, Tm.T, Tm.Normal, Year, Fires, Exact, Parsed, DaysFound, Sound, AddTo, Day,
      Value, Sec, Min, Hour, Mday, Mon, Wday, Misses, Strays, StraysTo, FiresSoon, SafeMonths, LandsRight, CallFrom;
    SureIfMissed(e, date, Year(Day(date)) - 1900);
    var cal := new Tm(date);
    var original := cal.Mktime();
    ghost var wrong := WrongTime(e, date);
    if original == CRON_INVALID_INSTANT {
      return CRON_INVALID_INSTANT;
    }
    FieldsNow(cal);
    AheadAgain(e, date, cal.tm_year);
    SafeFiresSoon(e, date);
    SureIfSoon(e, date, date, cal.tm_year);
    var res := DoNext(e, cal, cal.tm_year);
    if res != 0 {
      return CRON_INVALID_INSTANT;
    }
    ReachedExactly(e, date, date, cal.T());
    var calculated := cal.Mktime();
    if calculated == CRON_INVALID_INSTANT {
      return CRON_INVALID_INSTANT;
    }
    if calculated == original {
      res := cal.AddToField(Second, 1);
      AddSecond(date, 1);
      if res != 0 {
        return CRON_INVALID_INSTANT;
      }
      FieldsNow(cal);
      AheadAgain(e, date + 1, cal.tm_year);
      SureIfSoon(e, date, date + 1, cal.tm_year);
      res := DoNext(e, cal, cal.tm_year);
      if res != 0 {
        return CRON_INVALID_INSTANT;
      }
      ReachedExactly(e, date, date + 1, cal.T());
    }
    r := cal.Mktime();
  }

  /** Where the search from the date goes if it strays. */
  lemma WrongTime(e: Expr, date: int) returns (v: int)
    ensures Strays(e, date) ==> StraysTo(e, date, v) && !Fires(e, v) && 0 <= date < v
  {
    hide Fires, MonthOk, Matches;
    v := date;
    if Strays(e, date) {
      v :| StraysTo(e, date, v) && !Fires(e, v);
      var n :| Trap(e, Day(date), n) && MonthOk(e, Day(date) + n) && v == (Day(date) + n) * DAY;
      DaysMoved(e, Day(date), n);
      DayEnds(date);
    }
  }

  /** A search that fires within the guard finds a time, as far as the months let it. */
  lemma SureIfSoon(e: Expr, date: int, t: int, dot: int)
    requires Parsed(e) && date <= t <= date + 1 && dot + 1900 == Year(Day(t))
    ensures DaysFound(e) && LandsRight(e) && FiresSoon(e, date) && date >= 0 ==> SureSoon(e, t, dot)
  {
    hide Year, Day, Fresh, LandsRight, DaysFound, Final, MonthOk, Fires, CallFrom, OneDayFree, Parsed;
    if DaysFound(e) && LandsRight(e) && FiresSoon(e, date) && date >= 0 {
      var f :| date < f && Fires(e, f) && Year(Day(f)) <= Year(Day(date)) + 4;
      var g := LastOfMinute(e, f);
      DaysInOrder(date, t);
      YearMonotone(Day(date), Day(t));
      assert FiresBy(e, t, dot);
    }
  }

  lemma DaysInOrder(a: int, b: int)
    requires a <= b
    ensures Day(a) <= Day(b)
  {}

  lemma LastOfMinute(e: Expr, f: int) returns (g: int)
    requires Parsed(e) && Fires(e, f)
    ensures f <= g && Final(e, g) && MonthOk(e, Day(g)) && Day(g) == Day(f)
  {
    hide Due, MonthOk;
    var s := LastSecond(e);
    g := f / 60 * 60 + s;
    SecondParts(f);
    SecondOf(f / 60, s);
    DayOfMinute(f);
    DayOfMinute(g);
  }

  lemma SureIfMissed(e: Expr, date: int, dot: int)
    requires dot + 1900 == Year(Day(date))
    ensures Misses(e, date) ==> SureSoon(e, date, dot) && date >= 0
  {
    hide Sure, CallFrom, Fires, Year;
  }

  lemma ReachedExactly(e: Expr, date: int, t0: int, v: int)
    requires Reached(e, t0, v) && t0 >= date
    ensures t0 <= v && (Sound(e) ==> Fires(e, v)) && (Exact(e) ==> Fires(e, v) && forall t | t0 <= t < v :: !Fires(e, t))
    ensures t0 == date && Misses(e, date) ==> date < v && !IsNext(e, date, v)
  {
    hide Fires, Exact, CallFrom, Sure, Sound, Midnight, Year;
    if Exact(e) {
      ExactSound(e);
    }
  }

  lemma ExactSound(e: Expr)
    requires Exact(e)
    ensures Sound(e)
  {
    FoundSound(e);
  }

  lemma SafeFiresSoon(e: Expr, date: int)
    requires Parsed(e)
    ensures DaysFound(e) && SafeMonths(e) ==> LandsRight(e) && FiresSoon(e, date)
  {
    hide Year, MonthOf, MonthFirst, Day, LandsRight, SafeMonths, DaysFound, Fires, DayOk, MonthOk;
    if DaysFound(e) && SafeMonths(e) {
      SafeLands(e);
      var d := DayAndMonthSoon(e, Day(date));
      var h := Member(e.hours, 0, 23);
      var m := Member(e.minutes, 0, 59);
      var s := LastSecond(e);
      var f := FinalAt(e, d, h, m, s);
      InDay(f, d);
      DayEnds(date);
      FinalFires(e, f, d);
    }
  }

  lemma AddSecond(t: int, n: int)
    ensures AddTo(Second, t, n) == t + n
  {}

  lemma InDay(f: int, d: int)
    requires d * DAY <= f < (d + 1) * DAY
    ensures Day(f) == d
  {
    FloorIs(f, DAY, d, f - d * DAY);
  }

  lemma FinalFires(e: Expr, f: int, d: int)
    requires Final(e, f) && Day(f) == d && MonthOk(e, d)
    ensures Fires(e, f)
  {
    hide Due, MonthOk;
  }

  lemma DayAndMonthSoon(e: Expr, day: int) returns (d: int)
    requires Parsed(e) && DaysFound(e) && SafeMonths(e)
    ensures day < d && DayOk(e, d) && MonthOk(e, d) && Year(d) <= Year(day) + 2
  {
    hide MonthOf, MonthFirst, Mday, Wday;
    if All(e.months, 0, 11) {
      var n := DayAhead(e, day + 1);
      d := day + 1 + n;
      Within367(day, d);
      assert 0 <= Mon(d) < 12;
    } else {
      var m := Member(e.months, 0, 11);
      var x := Member(e.daysOfMonth, 1, 28);
      var k := MonthOf(day) - MonthOf(day) % 12 + 12 + m;
      MonthLengths(k);
      CarryAtMost(k, x);
      d := MonthFirst(k) + x - 1;
      LaterMonth(day, k);
      assert 0 <= Wday(d) <= 6;
    }
  }

  lemma Within367(day: int, d: int)
    requires day <= d <= day + 367
    ensures Year(d) <= Year(day) + 2
  {
    hide MonthFirst, MonthOf;
    var k := MonthOf(day);
    NextMonth(k);
    MonthLengths(k);
    MonthsGrow(k + 1, k + 15);
    BeforeMonth(d, k + 15);
  }
}
