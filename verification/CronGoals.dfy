/** What a run of the search keeps, from step to step. */
module CronGoals {
  import opened Calendar
  import opened CronTime
  import opened CronExpr
  import opened CronForward

  /** The expression does not fire from a on and before b. */
  ghost predicate NoFires(e: Expr, a: int, b: int) {
    forall t | a <= t < b :: !Fires(e, t)
  }

  /** do_next, called at time t, first calls itself at time u: at the first field that moves, unless
      that is the month and the year is too late by then, or the day and its number stays. */
  ghost predicate CallFrom(e: Expr, t: int, u: int) {
    var s, sec := NextTime(e.seconds, 60, Second, Minute, t, []), Sec(t) in e.seconds;
    if Min(s) !in e.minutes then u == NextTime(e.minutes, 60, Minute, Hours, s, Lower(sec, 0))
    else if Hour(s) !in e.hours then u == NextTime(e.hours, 24, Hours, DayOfWeek, s, Lower(sec, 1))
    else if !DayOk(e, Day(s)) then NextDayIs(e, s, u, sec) && Mday(Day(u)) != Mday(Day(s))
    else if !MonthOk(e, Day(s)) then u == NextTime(e.months, 12, Month, Years, s, Lower(sec, 3))
    else false
  }

  /** Not after the last listed second of the minute. */
  predicate LateSec(e: Expr, t: int) {
    exists s :: s in e.seconds && Sec(t) <= s
  }

  /** In the first minute of a day of a listed month. */
  predicate Midnight(e: Expr, t: int) {
    t % DAY < 60 && LateSec(e, t) && MonthOk(e, Day(t))
  }

  /** The search from t0 ended at t: the expression fires there if it is sound, and not before if it is exact. */
  ghost predicate Reached(e: Expr, t0: int, t: int) {
    && t0 <= t && (Fires(e, t) || (!Sound(e) && Midnight(e, t))) && (Exact(e) ==> NoFires(e, t0, t))
    && forall u | CallFrom(e, t0, u) :: u <= t
  }

  /** First second of the ninth year after dot, a tm_year. */
  function Limit(dot: int): int {
    MonthFirst(12 * (dot + 1909)) * DAY
  }

  /** The last matching second of a minute that matches but for the month. */
  ghost predicate Final(e: Expr, g: int) {
    Sec(g) in e.seconds && (forall s <- e.seconds :: s <= Sec(g)) && Due(e, g / 60)
  }

  ghost predicate NoFinal(e: Expr, a: int, b: int) {
    forall g | a <= g < b :: !Final(e, g)
  }

  /** The search comes to a match of all but the month before the limit. */
  ghost predicate Ahead(e: Expr, t: int, dot: int) {
    exists g :: t <= g < Limit(dot) && Final(e, g)
  }

  /** The expression fires, and not too late for the guard of the search. */
  ghost predicate FiresBy(e: Expr, t: int, dot: int) {
    exists f :: t <= f && Final(e, f) && MonthOk(e, Day(f)) && Year(Day(f)) <= dot + 1904
  }

  /** No match of all but the month was passed by in this month. */
  ghost predicate Fresh(e: Expr, t: int) {
    NoFinal(e, MonthFirst(MonthOf(Day(t))) * DAY, t)
  }

  /** Cases where the search cannot fail. */
  ghost predicate Sure(e: Expr, t: int, dot: int) {
    t >= 0 && DaysFound(e) && FiresBy(e, t, dot) && (LandsRight(e) || (OneDayFree(e) && Fresh(e, t)))
  }

  /** The search cannot fail from here, or from where it first calls itself. */
  ghost predicate SureSoon(e: Expr, t: int, dot: int) {
    t >= 0 && (Sure(e, t, dot) || exists u :: CallFrom(e, t, u) && Sure(e, u, dot))
  }

  // ---- Seconds --------------------------------------------------------------------------

  /** After the seconds were dealt with. */
  ghost predicate Started(e: Expr, t0: int, t: int, sec: bool) {
    && t0 <= t == NextTime(e.seconds, 60, Second, Minute, t0, []) && Sec(t) in e.seconds && (sec <==> Sec(t0) in e.seconds)
    && NoFires(e, t0, t) && (NoGap(e.seconds) ==> LowKeep(e, sec, t))
  }

  lemma Starts(e: Expr, t0: int, t: int, sec: bool, dot: int)
    requires Parsed(e) && t == NextTime(e.seconds, 60, Second, Minute, t0, []) && (sec <==> Sec(t0) in e.seconds)
    requires t0 <= t && Sec(t) in e.seconds && (forall x | t0 <= x < t :: Sec(x) !in e.seconds)
    ensures Started(e, t0, t, sec) && (Ahead(e, t0, dot) ==> Ahead(e, t, dot)) && (Sure(e, t0, dot) ==> Sure(e, t, dot))
  {
    hide Due, MonthOk, Year, Limit, NextTime, LowKeep, NoGap, Fresh, LandsRight, DaysFound, Sec;
    if NoGap(e.seconds) {
      KeepsLow(e, t0, t, sec);
    }
    assert NoFinal(e, t0, t);
    if Ahead(e, t0, dot) {
      var g :| t0 <= g < Limit(dot) && Final(e, g);
      assert t <= g;
    }
    if Sure(e, t0, dot) {
      var f :| t0 <= f && Final(e, f) && MonthOk(e, Day(f)) && Year(Day(f)) <= dot + 1904;
      assert t <= f;
      if Fresh(e, t0) {
        StaysFresh(e, t0, t);
      }
    }
  }

  lemma StaysFresh(e: Expr, t: int, u: int)
    requires Fresh(e, t) && t <= u && NoFinal(e, t, u)
    ensures Fresh(e, u)
  {
    hide Final, MonthFirst, MonthOf, Day;
    FirstsInOrder(t, u);
  }

  lemma FirstsInOrder(t: int, u: int)
    requires t <= u
    ensures MonthFirst(MonthOf(Day(t))) * DAY <= MonthFirst(MonthOf(Day(u))) * DAY
  {
    hide MonthFirst, MonthOf;
    MonthMonotone(Day(t), Day(u));
    MonthsGrow(MonthOf(Day(t)), MonthOf(Day(u)));
  }

  // ---- Steps ----------------------------------------------------------------------------

  /** A step from t to u, which passes no match by if the search is exact. */
  ghost predicate Onward(e: Expr, t: int, u: int, sec: bool) {
    t < u && t / 60 < u / 60 && Sec(u) == Keep(sec, t) && LateSec(e, t) && (Exact(e) ==> NoFires(e, t, u))
  }

  lemma GoesOn(e: Expr, t: int, u: int, sec: bool)
    requires t / 60 < u / 60 && Sec(u) == Keep(sec, t) && LateSec(e, t)
    requires Exact(e) ==> LowKeep(e, sec, t) && NoneFires(e, t / 60, u / 60)
    ensures Onward(e, t, u, sec)
  {
    hide FiresIn, Fires, Exact, Sec;
    if Exact(e) {
      forall x | t <= x < u ensures !Fires(e, x) {
        Quiet(e, t, u, sec, x);
      }
    }
  }

  lemma Quiet(e: Expr, t: int, u: int, sec: bool, x: int)
    requires NoneFires(e, t / 60, u / 60) && LowKeep(e, sec, t) && Sec(u) == Keep(sec, t) && t <= x < u
    ensures !Fires(e, x)
  {
    hide Due, MonthOk, Keep;
    SecondParts(x);
    SecondParts(u);
    DayOfMinute(x);
    assert x / 60 < u / 60 ==> !FiresIn(e, x / 60);
  }

  lemma DueNoFires(e: Expr, a: int, b: int)
    requires NoneDue(e, a, b)
    ensures NoneFires(e, a, b)
  {
    hide Due, MonthOk;
  }

  /** A matching last second is not passed by with its minute. */
  lemma NotPassed(e: Expr, t: int, u: int, sec: bool, g: int)
    requires Onward(e, t, u, sec) && t <= g && Final(e, g) && u / 60 <= g / 60
    ensures u <= g
  {
    hide Due, Exact, NoFires;
    SecondParts(g);
    SecondParts(u);
  }

  lemma NoFinalPassed(e: Expr, t: int, u: int, sec: bool)
    requires Onward(e, t, u, sec) && NoneDue(e, t / 60, u / 60)
    ensures NoFinal(e, t, u)
  {
    hide Due, Onward;
    forall g | t <= g < u ensures !Final(e, g) {
      if Final(e, g) {
        assert u / 60 <= g / 60;
        NotPassed(e, t, u, sec, g);
      }
    }
  }

  lemma StillAhead(e: Expr, t: int, u: int, sec: bool, dot: int)
    requires Onward(e, t, u, sec) && NoneDue(e, t / 60, u / 60) && Ahead(e, t, dot)
    ensures Ahead(e, u, dot)
  {
    hide Final, Limit, Onward, NoneDue;
    NoFinalPassed(e, t, u, sec);
  }

  lemma StillSure(e: Expr, t: int, u: int, sec: bool, dot: int)
    requires Sure(e, t, dot) && Onward(e, t, u, sec) && NoneFires(e, t / 60, u / 60) && (Fresh(e, t) ==> Fresh(e, u))
    ensures Sure(e, u, dot) && Year(Day(u)) <= dot + 1904
  {
    hide Due, MonthOk, Year, Fresh, LandsRight, DaysFound, Exact, NoFires;
    var f :| t <= f && Final(e, f) && MonthOk(e, Day(f)) && Year(Day(f)) <= dot + 1904;
    DayOfMinute(f);
    MinutesInOrder(t, f);
    assert FiresIn(e, f / 60);
    NotPassed(e, t, u, sec, f);
    YearMonotone(Day(u), Day(f));
  }

  lemma MinutesInOrder(t: int, f: int)
    requires t <= f
    ensures t / 60 <= f / 60
  {}

  lemma YearMonotone(a: int, b: int)
    requires a <= b
    ensures Year(a) <= Year(b)
  {
    hide MonthOf;
    MonthMonotone(a, b);
  }

  lemma OneCall(e: Expr, t: int, u: int, v: int)
    requires CallFrom(e, t, u) && CallFrom(e, t, v)
    ensures u == v
  {
    hide NextTime, DayOk, MonthOk, Mday, Min, Hour, Sec;
    var s, sec := NextTime(e.seconds, 60, Second, Minute, t, []), Sec(t) in e.seconds;
    if Min(s) in e.minutes && Hour(s) in e.hours && !DayOk(e, Day(s)) {
      OneDay(e, s, u, v, sec);
    }
  }

  lemma OneDay(e: Expr, s: int, u: int, v: int, sec: bool)
    requires NextDayIs(e, s, u, sec) && NextDayIs(e, s, v, sec)
    ensures u == v
  {
    hide DaysOn, Keep, Day;
    NotLater(e, Day(s), Day(u) - Day(s), Day(v) - Day(s));
    NotLater(e, Day(s), Day(v) - Day(s), Day(u) - Day(s));
  }

  lemma NotLater(e: Expr, d: int, m: int, n: int)
    requires DaysOn(e, d, m) && DaysOn(e, d, n)
    ensures m <= n
  {
    hide DayOk;
    var x := d + n;
    assert DayOk(e, x) || n == 366;
  }

  /** What the search from u reaches, the search from t0 reaches. */
  lemma ReachedToo(e: Expr, t0: int, t: int, u: int, sec: bool, v: int)
    requires Started(e, t0, t, sec) && Onward(e, t, u, sec) && CallFrom(e, t0, u) && Reached(e, u, v)
    ensures Reached(e, t0, v)
  {
    hide Fires, CallFrom, Exact, LowKeep, NextTime, Sound, Midnight;
    forall w | CallFrom(e, t0, w) ensures w <= v {
      OneCall(e, t0, u, w);
    }
  }

  /** The same where the search had gone on with a wrong day. */
  lemma ReachedOn(e: Expr, t0: int, t: int, u: int, v: int)
    requires !Exact(e) && t0 <= t <= u && (forall w | CallFrom(e, t0, w) :: w <= t) && Reached(e, u, v)
    ensures Reached(e, t0, v)
  {
    hide Fires, CallFrom, Exact, Sound, Midnight;
  }

  lemma ReachedAtOnce(e: Expr, t0: int, t: int, sec: bool)
    requires Started(e, t0, t, sec) && Fires(e, t)
    ensures Reached(e, t0, t)
  {
    hide LowKeep, NextTime, Exact, DayOk, MonthOk, NextDayIs, Sound, Midnight, Mday;
    DayOfMinute(t);
  }

  // ---- What is ahead ----------------------------------------------------------------------

  /** A match of all but the month within four years of any time that is not too late. */
  lemma AheadAgain(e: Expr, t: int, dot: int)
    requires Parsed(e) && Year(Day(t)) <= dot + 1904
    ensures Ahead(e, t, dot)
  {
    hide Year, Day, MonthOf, MonthFirst, Limit, Final, DayOk;
    var d := DayWithin(e, Day(t));
    var h := Member(e.hours, 0, 23);
    var m := Member(e.minutes, 0, 59);
    var s := LastSecond(e);
    var g := FinalAt(e, d, h, m, s);
    BeforeYear(d, dot);
    DayEnds(t);
    assert t <= g < Limit(dot) && Final(e, g);
  }

  lemma DayEnds(t: int)
    ensures Day(t) * DAY <= t < (Day(t) + 1) * DAY
  {}

  lemma LastSecond(e: Expr) returns (s: int)
    requires Parsed(e)
    ensures s in e.seconds && 0 <= s < 60 && forall x <- e.seconds :: x <= s
  {
    s := Member(e.seconds, 0, 59);
    while exists x :: x in e.seconds && x > s
      invariant s in e.seconds && 0 <= s < 60
      decreases 60 - s
    {
      var x :| x in e.seconds && x > s;
      s := x;
    }
  }

  lemma FinalAt(e: Expr, d: int, h: int, m: int, s: int) returns (g: int)
    requires DayOk(e, d) && h in e.hours && 0 <= h < 24 && m in e.minutes && 0 <= m < 60
    requires s in e.seconds && 0 <= s < 60 && forall x <- e.seconds :: x <= s
    ensures Final(e, g) && d * DAY <= g < (d + 1) * DAY
  {
    hide DayOk;
    var j := d * 1440 + h * 60 + m;
    g := j * 60 + s;
    SecondOf(j, s);
    FloorIs(j, 60, d * 24 + h, m);
    FloorIs(d * 24 + h, 24, d, h);
    FloorIs(j, 1440, d, h * 60 + m);
  }

  lemma BeforeYear(d: int, dot: int)
    requires Year(d) <= dot + 1908
    ensures (d + 1) * DAY <= Limit(dot)
  {
    hide MonthFirst, MonthOf;
    MonthsGrow(MonthOf(d) + 1, 12 * (dot + 1909));
  }
}
