/** Exactly for which expressions the search back ends from every date. */
module CronEnds {
  import opened Calendar
  import opened CronTime
  import opened CronExpr
  import opened CronForward
  import opened CronBackward
  import opened CronGoals
  import opened CronSearch
  import opened CronPrev

  /** Calls of do_prev nested in the one that cron_prev makes at time t. */
  ghost predicate NestFrom(e: Expr, t: int, calls: seq<int>) {
    calls != [] && calls[0] == t && Nested(e, Year(Day(t)) - 1900, calls)
  }

  ghost predicate AtMost(e: Expr, t: int, n: nat) {
    forall calls | NestFrom(e, t, calls) :: |calls| <= n
  }

  /** The search from t ends: its calls do not nest without bound. */
  ghost predicate Stops(e: Expr, t: int) {
    exists n: nat :: AtMost(e, t, n)
  }

  // ---- It ends -------------------------------------------------------------------------------

  lemma CallIsEarlier(e: Expr, t: int, dot: int, u: int)
    requires Parsed(e) && DaysFoundBack(e) && Ends(e) && Behind(e, t, dot) && dot + 1900 >= Year(Day(t)) && NextCall(e, t, dot, u)
    ensures u < t && Behind(e, u, dot) && dot + 1900 >= Year(Day(u))
  {
    hide PrevTime, Sec, Min, Hour, Day, DayOk, MonthOk, Year, Behind, Ends, PrevDayIs, TooEarly, Backward, NoneDue,
      NoneFires, BackLimit, HighKeep, NoGap;
    SecondStepBack(e, t);
    var s, sec := PrevTime(e.seconds, 60, Second, Minute, t, []), Sec(t) in e.seconds;
    StartsBack(e, t, s, sec, dot);
    EarlierDays(s, t);
    if Min(s) !in e.minutes {
      var v := MinuteMovesBack(e, s, sec);
      StillBehind(e, s, u, sec, dot);
    } else if Hour(s) !in e.hours {
      var v := HourMovesBack(e, s, sec);
      StillBehind(e, s, u, sec, dot);
    } else if !DayOk(e, Day(s)) {
      DayMovesBack(e, s, u, sec);
      StillBehind(e, s, u, sec, dot);
    } else {
      var v := MonthMovesBack(e, s, sec);
      BehindLimit(e, s, dot);
      AfterLimit(s, dot);
      BackwardIsEarlier(e, s, u, sec);
      NotTooEarly(u, dot);
      BehindAgain(e, u, dot);
    }
    BackwardIsEarlier(e, s, u, sec);
  }

  lemma EarlierDays(s: int, t: int)
    requires s <= t
    ensures Year(Day(s)) <= Year(Day(t))
  {
    YearMonotone(Day(s), Day(t));
  }

  lemma NotTooEarly(u: int, dot: int)
    requires !TooEarly(u, dot) && dot + 1800 <= Year(Day(u)) <= dot + 1900
    ensures Year(Day(u)) >= dot + 1896
  {
    hide Year, Day;
  }

  lemma {:induction false} CallsFall(e: Expr, dot: int, calls: seq<int>, i: nat)
    requires Parsed(e) && DaysFoundBack(e) && Ends(e) && Nested(e, dot, calls) && i < |calls|
    requires Behind(e, calls[0], dot) && dot + 1900 >= Year(Day(calls[0]))
    ensures calls[i] <= calls[0] - i && Behind(e, calls[i], dot) && dot + 1900 >= Year(Day(calls[i]))
    decreases i
  {
    hide NextCall, Behind, Year, Ends, Parsed, DaysFoundBack;
    if i > 0 {
      CallsFall(e, dot, calls, i - 1);
      assert CalledAt(e, dot, calls, i);
      CallIsEarlier(e, calls[i - 1], dot, calls[i]);
    }
  }

  lemma StopsThere(e: Expr, t: int)
    requires Parsed(e) && DaysFoundBack(e) && Ends(e)
    ensures Stops(e, t)
  {
    hide Nested, Behind, Year, Ends, Parsed, DaysFoundBack, BackLimit;
    var dot := Year(Day(t)) - 1900;
    BehindAgain(e, t, dot);
    BehindLimit(e, t, dot);
    var n := t - BackLimit(dot) + 1;
    forall calls | NestFrom(e, t, calls) ensures |calls| <= n {
      CallsFall(e, dot, calls, |calls| - 1);
      BehindLimit(e, calls[|calls| - 1], dot);
    }
    assert AtMost(e, t, n);
  }

  // ---- It does not ---------------------------------------------------------------------------

  /** In month j, not listed, at a day that the month before it, which is listed, does not have. */
  ghost predicate Caught(e: Expr, j: int, g: int, t: int) {
    && j % 12 >= 1 && j % 12 !in e.months && j % 12 - 1 in e.months
    && Initial(e, g) && MonthOf(Day(g)) == j && Mday(Day(g)) > MonthLength(j - 1)
    && g <= t && MonthOf(Day(t)) == j
  }

  lemma InBetween(e: Expr, j: int, g: int, t: int, u: int)
    requires Caught(e, j, g, t) && g <= u <= t
    ensures Caught(e, j, g, u)
  {
    hide MonthOf, MonthLength, Mday, Initial;
    DaysGrow(g, u);
    DaysGrow(u, t);
    MonthMonotone(Day(g), Day(u));
    MonthMonotone(Day(u), Day(t));
  }

  lemma DaysGrow(a: int, b: int)
    requires a <= b
    ensures Day(a) <= Day(b)
  {}

  lemma StillAfter(e: Expr, g: int, s: int, u: int, sec: bool)
    requires Initial(e, g) && g <= s && Backward(e, s, u, sec) && NoneDue(e, u / 60 + 1, s / 60 + 1)
    ensures g <= u <= s
  {
    hide Due, Backward;
    BackwardIsEarlier(e, s, u, sec);
    MinutesInOrder(g, s);
    NotPassedBack(e, s, u, sec, g);
  }

  /** A step goes back to a time in the same month, or on to its end; and then there is another one. */
  lemma CaughtAgain(e: Expr, j: int, g: int, t: int) returns (u: int)
    requires Parsed(e) && OneDayFree(e) && Caught(e, j, g, t)
    ensures Caught(e, j, g, u) && NextCall(e, t, j / 12 - 1900, u)
  {
    hide PrevTime, Sec, Min, Hour, DayOk, MonthOk, PrevDayIs, TooEarly, Backward, NoneDue, Caught, MonthOf, Mday,
      MonthLength, Initial, HighKeep, NoGap, NoFires;
    SecondStepBack(e, t);
    var s, sec := PrevTime(e.seconds, 60, Second, Minute, t, []), Sec(t) in e.seconds;
    StartsBack(e, t, s, sec, 0);
    CaughtMeans(e, j, g, t);
    AfterInitial(e, g, s, t);
    InBetween(e, j, g, t, s);
    if Min(s) !in e.minutes {
      u := MinuteMovesBack(e, s, sec);
      StillAfter(e, g, s, u, sec);
      InBetween(e, j, g, s, u);
    } else if Hour(s) !in e.hours {
      u := HourMovesBack(e, s, sec);
      StillAfter(e, g, s, u, sec);
      InBetween(e, j, g, s, u);
    } else if !DayOk(e, Day(s)) {
      DayOfInitial(e, g);
      DaysGrow(g, s);
      u := PrevDay(e, s, sec, Day(g));
      DayMovesBack(e, s, u, sec);
      StillAfter(e, g, s, u, sec);
      InBetween(e, j, g, s, u);
    } else {
      u := SameMonth(e, j, g, s, sec);
    }
  }

  lemma CaughtMeans(e: Expr, j: int, g: int, t: int)
    requires Caught(e, j, g, t)
    ensures Initial(e, g) && g <= t
  {}

  lemma AfterInitial(e: Expr, g: int, s: int, t: int)
    requires Initial(e, g) && g <= t && s <= t && forall x | s < x <= t :: Sec(x) !in e.seconds
    ensures g <= s
  {}

  lemma DayOfInitial(e: Expr, g: int)
    requires Initial(e, g)
    ensures DayOk(e, Day(g))
  {
    hide DayOk;
    DayOfMinute(g);
  }

  lemma PrevDay(e: Expr, s: int, sec: bool, d0: int) returns (u: int)
    requires DayOk(e, d0) && d0 <= Day(s) && !DayOk(e, Day(s))
    ensures PrevDayIs(e, s, u, sec)
  {
    hide DayOk, Sec;
    var d := Day(s);
    while !DayOk(e, d)
      invariant d0 <= d <= Day(s) && forall x | d < x <= Day(s) :: !DayOk(e, x)
      decreases d - d0
    {
      d := d - 1;
    }
    u := d * DAY + 86340 + Keep59(sec, s);
    LastMinuteOfDay(u, d, Keep59(sec, s));
  }

  /** The month step comes back to the end of the month it left. */
  lemma SameMonth(e: Expr, j: int, g: int, s: int, sec: bool) returns (u: int)
    requires Parsed(e) && Caught(e, j, g, s) && DayOk(e, Day(s))
    ensures !MonthOk(e, Day(s)) && u == PrevTime(e.months, 12, Month, Years, s, Lower(sec, 3)) && !TooEarly(u, j / 12 - 1900) && Caught(e, j, g, u)
  {
    hide PrevTime, Sec, MonthFirst, MonthOf, Mday, MonthLength, DayOk, Initial;
    u := PrevTime(e.months, 12, Month, Years, s, Lower(sec, 3));
    LastIsBefore(e.months, j % 12);
    FloorIs(j - 1, 12, j / 12, j % 12 - 1);
    DaysGrow(g, s);
    MdayIs(Day(g));
    MdayIs(Day(s));
    var k := MonthStepBack(e, s, sec);
    assert k == j;
    var last := MonthFirst(j + 1) - 1;
    LastMinuteOfDay(u, last, Keep59(sec, s));
    NextMonth(j);
    MonthLengths(j);
    MonthUnique(last, j);
    InMonthBefore(Day(s), last, j);
    UntilDayEnd(s, u, sec);
  }

  lemma LastIsBefore(months: set<int>, m: int)
    requires m >= 1 && m !in months && m - 1 in months
    ensures LastIn(months, m, 0) == m - 1
  {}

  lemma InMonthBefore(day: int, last: int, j: int)
    requires MonthOf(day) == j && last == MonthFirst(j + 1) - 1
    ensures day <= last
  {
    hide MonthFirst;
  }

  lemma UntilDayEnd(s: int, u: int, sec: bool)
    requires Day(s) <= Day(u) && u == Day(u) * DAY + 86340 + Keep59(sec, s)
    ensures s <= u
  {
    DayEnds(s);
    SecondParts(s);
    if Day(s) == Day(u) {
      var r := s % DAY;
      FloorIs(s, 60, Day(s) * 1440 + r / 60, r % 60);
    }
  }

  /** A day that is caught, if some listed month lacks a listed day and the next one is not listed. */
  lemma CaughtDay(e: Expr, w: int, x: int) returns (day: int)
    requires Parsed(e) && OneDayFree(e) && 0 <= w <= 10 && w in e.months && w + 1 !in e.months && x in e.daysOfMonth && x > CommonLength(w)
    ensures DayOk(e, day) && day >= 0 && MonthOf(day) % 12 == w + 1 && Mday(day) > MonthLength(MonthOf(day) - 1)
  {
    hide MonthFirst, MonthOf, Mday, Wday;
    var free := All(e.daysOfMonth, 1, 31);
    var v := Member(e.daysOfWeek, 0, 6);
    var d := if free then 31 else x;
    var y := CommonYear(if free then (v - 4 - 30 - DaysBefore(w + 1)) % 7 else 4);
    var j := 12 * y + w + 1;
    FloorIs(j, 12, y, w + 1);
    FloorIs(j - 1, 12, y, w);
    day := MonthFirst(j) + d - 1;
    Lengths(j, w);
    CarryAtMost(j, d);
    EpochStart();
    MonthsGrow(12 * 1970, j);
    CommonFirst(y, w + 1);
    if free {
      WeekdayIs(day, YearFirst(y), DaysBefore(w + 1), v);
    } else {
      assert 0 <= Wday(day) <= 6;
    }
  }

  lemma Lengths(j: int, w: int)
    requires j % 12 == w + 1 && (j - 1) % 12 == w && (j - 1) / 12 == j / 12 && !IsLeap(j / 12) && 0 <= w <= 10 && CommonLength(w) < 31
    ensures MonthLength(j) == 31 && MonthLength(j - 1) == CommonLength(w)
  {}

  lemma {:induction false} Deeper(e: Expr, j: int, g: int, dot: int, n: nat) returns (calls: seq<int>)
    requires Parsed(e) && OneDayFree(e) && Caught(e, j, g, g) && dot == j / 12 - 1900
    ensures |calls| == n + 1 && calls[0] == g && Nested(e, dot, calls) && forall t <- calls :: Caught(e, j, g, t)
    decreases n
  {
    hide Caught, NextCall, Parsed, OneDayFree;
    if n == 0 {
      calls := [g];
    } else {
      calls := Deeper(e, j, g, dot, n - 1);
      var last := calls[|calls| - 1];
      var u := CaughtAgain(e, j, g, last);
      CallsAgain(e, dot, calls, u);
      calls := calls + [u];
    }
  }

  /** Calls nest n deep below the one at time g, and none is at an earlier time. */
  ghost predicate NestsTo(e: Expr, g: int, n: nat) {
    exists calls :: NestFrom(e, g, calls) && |calls| == n + 1 && NoneBefore(calls, g)
  }

  predicate NoneBefore(calls: seq<int>, g: int) {
    forall t <- calls :: t >= g
  }

  lemma NestsDeep(e: Expr, j: int, g: int, n: nat)
    requires Parsed(e) && OneDayFree(e) && Caught(e, j, g, g)
    ensures NestsTo(e, g, n) && !AtMost(e, g, n)
  {
    hide Nested, Parsed, OneDayFree, Initial, MonthLength, Mday, MonthOf, MonthFirst, Day;
    var calls := Deeper(e, j, g, j / 12 - 1900, n);
    assert NestFrom(e, g, calls);
    assert NoneBefore(calls, g);
  }

  /** The search goes on for ever from a time after the epoch, and does not come before that time. */
  lemma GoesOnForEver(e: Expr) returns (g: int)
    requires Parsed(e) && OneDayFree(e) && !Ends(e)
    ensures g >= 0 && !Stops(e, g) && forall n: nat :: NestsTo(e, g, n)
  {
    var w :| 0 <= w <= 10 && w in e.months && w + 1 !in e.months && !Within(e.daysOfMonth, 1, CommonLength(w));
    hide Parsed, OneDayFree, DayOk, MonthOf, MonthLength, Mday, AtMost, NestsTo, Caught;
    var x := TooLarge(e, CommonLength(w));
    var day := CaughtDay(e, w, x);
    var h, m, s := FirstOfEach(e);
    g := InitialAt(e, day, h, m, s);
    InDay(g, day);
    CaughtThere(e, day, g, w);
    forall n: nat ensures NestsTo(e, g, n) && !AtMost(e, g, n) {
      NestsDeep(e, MonthOf(day), g, n);
    }
  }

  lemma CaughtThere(e: Expr, day: int, g: int, w: int)
    requires Initial(e, g) && Day(g) == day && MonthOf(day) % 12 == w + 1 && 0 <= w && w in e.months && w + 1 !in e.months
    requires Mday(day) > MonthLength(MonthOf(day) - 1)
    ensures Caught(e, MonthOf(day), g, g)
  {
    hide Initial, MonthOf, MonthLength, Mday;
  }

  lemma TooLarge(e: Expr, n: int) returns (x: int)
    requires Parsed(e) && !Within(e.daysOfMonth, 1, n)
    ensures x in e.daysOfMonth && x > n
  {
    x :| x in e.daysOfMonth && !(1 <= x <= n);
  }

  lemma FirstOfEach(e: Expr) returns (h: int, m: int, s: int)
    requires Parsed(e)
    ensures h in e.hours && 0 <= h < 24 && m in e.minutes && 0 <= m < 60
    ensures s in e.seconds && 0 <= s < 60 && forall x <- e.seconds :: s <= x
  {
    h := Member(e.hours, 0, 23);
    m := Member(e.minutes, 0, 59);
    s := FirstSecond(e);
  }

  /** The search back ends from every date exactly for these expressions. */
  lemma EndsIff(e: Expr)
    requires Parsed(e) && OneDayFree(e)
    ensures Ends(e) <==> forall t :: Stops(e, t)
  {
    hide Parsed, OneDayFree, Ends, Stops, DaysFoundBack;
    FreeDaysFoundBack(e);
    if Ends(e) {
      forall t ensures Stops(e, t) {
        StopsThere(e, t);
      }
    } else {
      var g := GoesOnForEver(e);
    }
  }

  /** One such search, on the last day of March when only February is listed: it goes back and forth
      between two times of the last minute. */
  lemma BackAndForth(e: Expr, t: int)
    requires Parsed(e) && OneDayFree(e) && e.months == {1} && e.seconds == {0} && 59 in e.minutes && 23 in e.hours && 31 in e.daysOfMonth
    requires t % DAY == 86340 && Mon(Day(t)) == 2 && Mday(Day(t)) == 31 && DayOk(e, Day(t))
    ensures var dot := Year(Day(t)) - 1900; NextCall(e, t, dot, t + 59) && NextCall(e, t + 59, dot, t)
  {
    hide MonthOf, MonthFirst, MonthLength, Mday, DayOk, PrevTime, TooEarly;
    var j := MonthOf(Day(t));
    LastMinuteOfDay(t, Day(t), 0);
    LastMinuteOfDay(t + 59, Day(t), 59);
    HourAndMinute(t, Day(t), 0);
    SecondStepBack(e, t);
    SecondStepBack(e, t + 59);
    SecondOnly(t, PrevTime(e.seconds, 60, Second, Minute, t + 59, []));
    FromMarch(e, t, true);
    FromMarch(e, t, false);
  }

  /** For example from 2001-03-31 23:59:00, if all other fields are open. */
  lemma BackAndForthIn2001(e: Expr)
    requires Parsed(e) && e.months == {1} && e.seconds == {0} && All(e.minutes, 0, 59) && All(e.hours, 0, 23)
    requires All(e.daysOfMonth, 1, 31) && All(e.daysOfWeek, 0, 6)
    ensures NextCall(e, 986083140, 101, 986083199) && NextCall(e, 986083199, 101, 986083140)
  {
    hide NextCall, MonthFirst, MonthOf, Wday;
    var t := 986083140;
    March2001();
    NextMonth(24014);
    March(24014);
    MonthUnique(Day(t), 24014);
    MdayIs(Day(t));
    BackAndForth(e, t);
  }

  lemma March2001()
    ensures Day(986083140) == 11412 && 986083140 % DAY == 86340 && MonthFirst(24014) == 11382
  {}

  lemma HourAndMinute(t: int, d: int, s: int)
    requires 0 <= s < 60 && t == d * DAY + 86340 + s
    ensures Hour(t) == 23 && Min(t) == 59
  {
    FloorIs(t, 3600, d * 24 + 23, 3540 + s);
    FloorIs(t, 60, d * 1440 + 1439, s);
    FloorIs(d * 24 + 23, 24, d, 23);
    FloorIs(d * 1440 + 1439, 60, d * 24 + 23, 59);
  }

  lemma SecondOnly(t: int, s: int)
    requires Sec(t) == 0 && s <= t + 59 && Sec(s) == 0 && forall x | s < x <= t + 59 :: Sec(x) != 0
    ensures s == t
  {
    SecondParts(t);
    SecondParts(s);
  }

  lemma FromMarch(e: Expr, t: int, sec: bool)
    requires Parsed(e) && e.months == {1} && t % DAY == 86340 && Mon(Day(t)) == 2 && Mday(Day(t)) == 31
    ensures PrevTime(e.months, 12, Month, Years, t, Lower(sec, 3)) == (if sec then t + 59 else t)
    ensures !TooEarly(t, Year(Day(t)) - 1900) && !TooEarly(t + 59, Year(Day(t)) - 1900)
  {
    hide MonthOf, MonthFirst, MonthLength, Mday, PrevTime;
    var j := MonthOf(Day(t));
    LastIsBefore(e.months, 2);
    FloorIs(j - 1, 12, j / 12, 1);
    MonthLengths(j - 1);
    February(j - 1);
    var k := MonthStepBack(e, t, sec);
    MdayIs(Day(t));
    NextMonth(j);
    March(j);
    DaySplit(t);
    LastMinuteOfDay(t, Day(t), 0);
    LastMinuteOfDay(t + 59, Day(t), 59);
  }

  lemma February(k: int)
    requires k % 12 == 1
    ensures MonthLength(k) <= 29
  {}

  lemma March(k: int)
    requires k % 12 == 2
    ensures MonthLength(k) == 31
  {}
}
