/** Exactly for which expressions the search back finds the greatest time from every date. */
module CronGreatest {
  import opened Calendar
  import opened CronTime
  import opened CronExpr
  import opened CronForward
  import opened CronBackward
  import opened CronGoals
  import opened CronSearch
  import opened CronPrev
  import L = CronLeast

  // ---- Nothing is missed -------------------------------------------------------------------

  lemma NothingMissedBack(e: Expr, t: int, dot: int, u: int)
    requires ExactBack(e) && NextCall(e, t, dot, u)
    ensures NoFires(e, u + 1, t + 1)
  {
    hide PrevTime, Sec, Min, Hour, DayOk, MonthOk, HighKeep, NoGap, Open, Ends, PrevDayIs, Fires, NoneDue, NoneFires, TooEarly;
    SecondStepBack(e, t);
    var s, sec := PrevTime(e.seconds, 60, Second, Minute, t, []), Sec(t) in e.seconds;
    StartsBack(e, t, s, sec, 0);
    if Min(s) !in e.minutes {
      var v := MinuteMovesBack(e, s, sec);
    } else if Hour(s) !in e.hours {
      var v := HourMovesBack(e, s, sec);
    } else if !DayOk(e, Day(s)) {
      DayMovesBack(e, s, u, sec);
    } else {
      var v := MonthMovesBack(e, s, sec);
    }
  }

  // ---- A second is missed ------------------------------------------------------------------

  /** Second b is in a gap of the list: the previous one listed is w. */
  predicate InGapBack(e: Expr, w: int, b: int) {
    0 <= w < b < 60 && w in e.seconds && forall x | w < x <= b :: x !in e.seconds
  }

  lemma GapBack(e: Expr) returns (w: int, b: int, c: int)
    requires Parsed(e) && !NoGap(e.seconds)
    ensures c in e.seconds && b < c < 60 && InGapBack(e, w, b)
  {
    var x, z, y :| x in e.seconds && z in e.seconds && x < y < z && y !in e.seconds;
    b, c := y, z;
    w := LastIn(e.seconds, b, 0);
  }

  lemma SecondMovesBack(e: Expr, j: int, w: int, b: int)
    requires Parsed(e) && InGapBack(e, w, b)
    ensures PrevTime(e.seconds, 60, Second, Minute, j * 60 + b, []) == j * 60 + w && Sec(j * 60 + b) !in e.seconds
    ensures Sec(j * 60 + w) == w && (j * 60 + w) / 60 == j && 0 <= w < b < 60
  {
    hide PrevTime, Sec;
    var t := j * 60 + b;
    SecondStepBack(e, t);
    SecondOf(j, b);
    SecondOf(j, w);
    var u := PrevTime(e.seconds, 60, Second, Minute, t, []);
    SecondParts(u);
    assert Sec(j * 60 + w) in e.seconds;
  }

  /** From a minute that is not listed to the one before. */
  lemma MinuteArrivesBack(e: Expr, j: int, dot: int, w: int, b: int)
    requires Parsed(e) && InGapBack(e, w, b) && j % 60 !in e.minutes && (j - 1) % 60 in e.minutes
    ensures NextCall(e, j * 60 + b, dot, (j - 1) * 60 + w)
  {
    hide PrevTime, Sec, InGapBack;
    SecondMovesBack(e, j, w, b);
    MinuteStepBack(e, j * 60 + w, false);
    SecondParts(PrevTime(e.minutes, 60, Minute, Hours, j * 60 + w, Lower(false, 0)));
  }

  /** From the start of an hour that is not listed. */
  lemma HourArrivesBack(e: Expr, h: int, dot: int, w: int, b: int)
    requires Parsed(e) && InGapBack(e, w, b) && h % 24 !in e.hours && (h - 1) % 24 in e.hours && 0 in e.minutes
    ensures NextCall(e, h * 3600 + b, dot, (h - 1) * 3600 + 3540 + w)
  {
    hide PrevTime, Sec, InGapBack;
    var j := h * 60;
    SecondMovesBack(e, j, w, b);
    var s := j * 60 + w;
    FloorIs(j, 60, h, 0);
    FloorIs(s, 3600, h, w);
    HourStepBack(e, s, false);
    var u := PrevTime(e.hours, 24, Hours, DayOfWeek, s, Lower(false, 1));
    assert u == u / 3600 * 3600 + u % 3600;
  }

  /** From the start of a day that does not match. */
  lemma DayArrivesBack(e: Expr, x: int, dot: int, w: int, b: int)
    requires Parsed(e) && InGapBack(e, w, b) && !DayOk(e, x) && DayOk(e, x - 1) && 0 in e.minutes && 0 in e.hours
    ensures NextCall(e, x * DAY + b, dot, (x - 1) * DAY + 86340 + w)
  {
    hide PrevTime, Sec, InGapBack, DayOk;
    var j := x * 1440;
    SecondMovesBack(e, j, w, b);
    L.Midnight(x, w);
    DayAt(x * DAY + w, x, w);
    LastMinuteOfDay((x - 1) * DAY + 86340 + w, x - 1, w);
  }

  /** From the first day of a month that is not listed. */
  lemma MonthArrivesBack(e: Expr, n: int, dot: int, w: int, b: int)
    requires Parsed(e) && InGapBack(e, w, b) && (n + 1) % 12 !in e.months && n % 12 in e.months && 0 in e.minutes && 0 in e.hours
    requires DayOk(e, MonthFirst(n + 1)) && dot == (n + 1) / 12 - 1900
    ensures NextCall(e, MonthFirst(n + 1) * DAY + b, dot, MonthFirst(n + 1) * DAY - 60 + w)
  {
    hide PrevTime, Sec, InGapBack, DayOk, MonthFirst, MonthOf, Mday, MonthLength, Min, Hour;
    var j := MonthFirst(n + 1) * 1440;
    SecondMovesBack(e, j, w, b);
    FirstTime(n + 1, w);
    L.Midnight(MonthFirst(n + 1), w);
    PrevIs(e, n);
    MonthLengths(n);
    var k := MonthStepBack(e, j * 60 + w, false);
    YearOfLast(n, w);
  }

  lemma PrevIs(e: Expr, n: int)
    requires Parsed(e) && (n + 1) % 12 !in e.months && n % 12 in e.months
    ensures PrevMonthOf(e, n + 1) == n
  {
    MonthsSkippedBack(e, n + 1);
  }

  lemma YearOfLast(n: int, w: int)
    requires 0 <= w < 60
    ensures var u := MonthFirst(n + 1) * DAY - 60 + w; Day(u) == MonthFirst(n + 1) - 1 && !TooEarly(u, (n + 1) / 12 - 1900)
  {
    hide MonthFirst, MonthOf;
    LastMinuteOfDay(MonthFirst(n + 1) * DAY - 60 + w, MonthFirst(n + 1) - 1, w);
    NextMonth(n);
    MonthLengths(n);
    MonthUnique(MonthFirst(n + 1) - 1, n);
  }

  /** If the expression fires in the minute that the search goes to, it passes a second by. */
  lemma SecondMissedBack(e: Expr, t: int, dot: int, i: int, w: int, c: int)
    requires Parsed(e) && dot == Year(Day(t)) - 1900 && NextCall(e, t, dot, i * 60 + w) && FiresIn(e, i) && c in e.seconds && w < c
    requires 0 <= i < t / 60 && Year(i / 1440) >= Year(Day(t)) - 4
    ensures MissesBack(e, t)
  {
    hide Due, MonthOk, NextCall, Year, Day;
    SecondOf(i, c);
    DayOfMinute(i * 60 + c);
    SecondParts(t);
    var f, u := i * 60 + c, i * 60 + w;
    assert u < f < t && Fires(e, f);
  }

  // ---- Somewhere ---------------------------------------------------------------------------

  /** A listed value whose successor, around the end, is not listed. */
  lemma UpperEdge(s: set<int>, n: int) returns (m: int)
    requires n > 0 && Within(s, 0, n - 1) && !All(s, 0, n - 1)
    ensures m in s && 0 <= m < n && (if m == n - 1 then 0 else m + 1) !in s
  {
    var y := Member(s, 0, n - 1);
    var x :| 0 <= x <= n - 1 && x !in s;
    m := LastIn(s, x, 0);
    if m == -1 {
      m := LastIn(s, n - 1, 0);
    }
  }

  /** Up to the end of a month, one comes to a day whose successor is not listed. */
  lemma UpperDayEdge(e: Expr, n: int, d0: int) returns (d: int)
    requires d0 in e.daysOfMonth && 1 <= d0 <= n
    ensures d0 <= d <= n && (d == n || d + 1 !in e.daysOfMonth) && forall y | d0 <= y <= d :: y in e.daysOfMonth
  {
    d := d0;
    while d < n && d + 1 in e.daysOfMonth
      invariant d0 <= d <= n && forall y | d0 <= y <= d :: y in e.daysOfMonth
    {
      d := d + 1;
    }
  }

  lemma YearOfDayAfter(t: int, x: int)
    requires x * DAY <= t < (x + 2) * DAY
    ensures Year(x) >= Year(Day(t)) - 4
  {
    hide Year, Day;
    DayEnds(t);
    Within367(x, Day(t));
  }

  predicate Gapped(e: Expr, w: int, b: int, c: int) {
    Parsed(e) && InGapBack(e, w, b) && c in e.seconds && b < c
  }

  lemma MissedInHourBack(e: Expr, w: int, b: int, c: int, x: int) returns (t: int)
    requires Gapped(e, w, b, c) && !All(e.minutes, 0, 59) && DayOk(e, x) && MonthOk(e, x) && x >= 0
    ensures MissesBack(e, t)
  {
    hide DayOk, MonthOk, MissesBack, NextCall, InGapBack, FiresIn, Year, Day;
    var h := Member(e.hours, 0, 23);
    var m := UpperEdge(e.minutes, 60);
    var i := x * 1440 + h * 60 + m;
    t := (i + 1) * 60 + b;
    SecondMovesBack(e, i + 1, w, b);
    FloorIs(i + 1, 60, if m == 59 then x * 24 + h + 1 else x * 24 + h, if m == 59 then 0 else m + 1);
    FloorIs(i, 60, x * 24 + h, m);
    SecondOf(i + 1, b);
    L.MinuteOfDay(e, x, h, m);
    YearOfDayAfter(t, x);
    MinuteArrivesBack(e, i + 1, Year(Day(t)) - 1900, w, b);
    SecondMissedBack(e, t, Year(Day(t)) - 1900, i, w, c);
  }

  lemma MissedInDayBack(e: Expr, w: int, b: int, c: int, x: int) returns (t: int)
    requires Gapped(e, w, b, c) && All(e.minutes, 0, 59) && !All(e.hours, 0, 23) && DayOk(e, x) && MonthOk(e, x) && x >= 0
    ensures MissesBack(e, t)
  {
    hide DayOk, MonthOk, MissesBack, NextCall, InGapBack, FiresIn, Year, Day;
    var h := UpperEdge(e.hours, 24);
    var j := x * 24 + h + 1;
    t := j * 3600 + b;
    SecondMovesBack(e, j * 60, w, b);
    FloorIs(j, 24, if h == 23 then x + 1 else x, if h == 23 then 0 else h + 1);
    FloorIs(j - 1, 24, x, h);
    SecondOf(j * 60, b);
    L.MinuteOfDay(e, x, h, 59);
    YearOfDayAfter(t, x);
    HourArrivesBack(e, j, Year(Day(t)) - 1900, w, b);
    SecondMissedBack(e, t, Year(Day(t)) - 1900, x * 1440 + h * 60 + 59, w, c);
  }

  lemma MissedAtDayBack(e: Expr, w: int, b: int, c: int, x: int) returns (t: int)
    requires Gapped(e, w, b, c) && All(e.minutes, 0, 59) && All(e.hours, 0, 23) && DayOk(e, x) && MonthOk(e, x) && x >= 0 && !DayOk(e, x + 1)
    ensures MissesBack(e, t)
  {
    hide DayOk, MonthOk, MissesBack, NextCall, InGapBack, FiresIn, Year, Day;
    t := (x + 1) * DAY + b;
    SecondMovesBack(e, (x + 1) * 1440, w, b);
    SecondOf((x + 1) * 1440, b);
    L.MinuteOfDay(e, x, 23, 59);
    YearOfDayAfter(t, x);
    DayArrivesBack(e, x + 1, Year(Day(t)) - 1900, w, b);
    SecondMissedBack(e, t, Year(Day(t)) - 1900, x * 1440 + 1439, w, c);
  }

  lemma MissedInYearBack(e: Expr, w: int, b: int, c: int, n: int) returns (t: int)
    requires Gapped(e, w, b, c) && All(e.minutes, 0, 59) && All(e.hours, 0, 23) && n % 12 in e.months && (n + 1) % 12 !in e.months
    requires 1 in e.daysOfMonth && MonthLength(n) in e.daysOfMonth && All(e.daysOfWeek, 0, 6) && MonthFirst(n) >= 0
    ensures MissesBack(e, t)
  {
    hide DayOk, MonthOk, MissesBack, NextCall, InGapBack, FiresIn, MonthFirst, MonthOf, MonthLength, Mday, Wday;
    var x := MonthFirst(n + 1) - 1;
    t := MonthFirst(n + 1) * DAY + b;
    SecondMovesBack(e, MonthFirst(n + 1) * 1440, w, b);
    SecondOf(MonthFirst(n + 1) * 1440, b);
    FirstTime(n + 1, b);
    L.FirstDay(e, n + 1);
    LastDayFires(e, n);
    L.MinuteOfDay(e, x, 23, 59);
    YearOfDayAfter(t, x);
    MonthArrivesBack(e, n, Year(Day(t)) - 1900, w, b);
    SecondMissedBack(e, t, Year(Day(t)) - 1900, x * 1440 + 1439, w, c);
  }

  lemma LastDayFires(e: Expr, n: int)
    requires MonthLength(n) in e.daysOfMonth && All(e.daysOfWeek, 0, 6) && n % 12 in e.months && MonthFirst(n) >= 0
    ensures var x := MonthFirst(n + 1) - 1; DayOk(e, x) && MonthOk(e, x) && x >= 0
  {
    hide MonthFirst, MonthOf, MonthLength, Mday, Wday;
    NextMonth(n);
    MonthLengths(n);
    CarryAtMost(n, MonthLength(n));
    assert 0 <= Wday(MonthFirst(n + 1) - 1) <= 6;
  }

  // ---- Days and months ---------------------------------------------------------------------

  /** A listed weekday, before one that is not. */
  lemma LastWeekday(e: Expr) returns (x: int)
    requires Parsed(e) && All(e.daysOfMonth, 1, 31) && !All(e.daysOfWeek, 0, 6)
    ensures DayOk(e, x) && MonthOk(e, x) && x >= 0 && !DayOk(e, x + 1)
  {
    hide MonthFirst, MonthOf, MonthLength, Mday, Wday;
    var k := Member(e.months, 0, 11);
    var v := UpperEdge(e.daysOfWeek, 7);
    L.MonthsOf2000(k);
    var n := 24000 + k;
    var m := WeekdaySoon(MonthFirst(n), v);
    x := MonthFirst(n) + m;
    CarryAtMost(n, m + 1);
    L.DayBeforeThat(x + 1, Wday(x + 1));
  }

  /** A listed day of month n, before one that is not listed. */
  lemma LastListed(e: Expr, n: int, d: int)
    requires Parsed(e) && All(e.daysOfWeek, 0, 6) && n % 12 in e.months && d in e.daysOfMonth && 1 <= d <= MonthLength(n)
    requires if d == MonthLength(n) then 1 !in e.daysOfMonth else d + 1 !in e.daysOfMonth
    ensures var x := MonthFirst(n) + d - 1; DayOk(e, x) && MonthOk(e, x) && !DayOk(e, x + 1)
  {
    hide MonthFirst, MonthOf, MonthLength, Mday, Wday;
    MonthLengths(n);
    MonthLengths(n + 1);
    var x := MonthFirst(n) + d - 1;
    CarryAtMost(n, d);
    assert 0 <= Wday(x) <= 6;
    if d == MonthLength(n) {
      NextMonth(n);
      CarryAtMost(n + 1, 1);
    } else {
      CarryAtMost(n, d + 1);
    }
  }

  /** A month of 2000, which is the last in a row of listed ones if not all are listed. */
  lemma LastOfMonths(e: Expr) returns (n: int)
    requires Parsed(e) && Ends(e)
    ensures n % 12 in e.months && MonthFirst(n) >= 0 && Within(e.daysOfMonth, 1, MonthLength(n))
    ensures if All(e.months, 0, 11) then MonthLength(n) == 31 else (n + 1) % 12 !in e.months
  {
    hide MonthFirst, MonthLength;
    var k := 0;
    if !All(e.months, 0, 11) {
      k := UpperEdge(e.months, 12);
    }
    L.MonthsOf2000(k);
    n := 24000 + k;
    FloorIs(n + 1, 12, if k == 11 then 2001 else 2000, if k == 11 then 0 else k + 1);
  }

  lemma MissedLaterBack(e: Expr, w: int, b: int, c: int) returns (t: int)
    requires Gapped(e, w, b, c) && OneDayFree(e) && Ends(e) && All(e.minutes, 0, 59) && All(e.hours, 0, 23) && !Open(e)
    ensures MissesBack(e, t)
  {
    hide DayOk, MonthOk, MissesBack, InGapBack, MonthFirst, MonthLength, Ends;
    if !All(e.daysOfWeek, 0, 6) {
      var x := LastWeekday(e);
      t := MissedAtDayBack(e, w, b, c, x);
    } else {
      var n := LastOfMonths(e);
      var y := Member(e.daysOfMonth, 1, 31);
      var d := UpperDayEdge(e, MonthLength(n), if 1 in e.daysOfMonth then 1 else y);
      if 1 in e.daysOfMonth && d == MonthLength(n) {
        t := MissedInYearBack(e, w, b, c, n);
      } else {
        LastListed(e, n, d);
        t := MissedAtDayBack(e, w, b, c, MonthFirst(n) + d - 1);
      }
    }
  }

  /** Where seconds may not be kept, a time is missed. */
  lemma SomeSecondMissedBack(e: Expr) returns (t: int)
    requires Parsed(e) && OneDayFree(e) && Ends(e) && !SecondsRight(e)
    ensures MissesBack(e, t)
  {
    hide DayOk, MonthOk, MissesBack, InGapBack, NoGap, Ends, Year;
    var w, b, c := GapBack(e);
    if All(e.minutes, 0, 59) && All(e.hours, 0, 23) {
      t := MissedLaterBack(e, w, b, c);
    } else {
      var x := DayAndMonthBefore(e, 10957);
      YearOf2000();
      AfterEpoch(x);
      if All(e.minutes, 0, 59) {
        t := MissedInDayBack(e, w, b, c, x);
      } else {
        t := MissedInHourBack(e, w, b, c, x);
      }
    }
  }

  lemma YearOf2000()
    ensures Year(10957) == 2000
  {
    hide MonthFirst, MonthOf;
    L.January2000();
    NextMonth(24000);
    MonthLengths(24000);
    MonthUnique(10957, 24000);
  }

  // ---- The condition -----------------------------------------------------------------------

  /** Of the expressions for which the search back ends, it misses no time from any date exactly for these. */
  lemma ExactBackIff(e: Expr)
    requires Parsed(e) && OneDayFree(e) && Ends(e)
    ensures ExactBack(e) <==> forall date :: !MissesBack(e, date)
  {
    hide Parsed, OneDayFree, Ends, SecondsRight, MissesBack, DaysFoundBack;
    FreeDaysFoundBack(e);
    if SecondsRight(e) {
      forall date ensures !MissesBack(e, date) {
        ExactMissesBack(e, date);
      }
    } else {
      var t := SomeSecondMissedBack(e);
    }
  }

  lemma ExactMissesBack(e: Expr, date: int)
    requires ExactBack(e)
    ensures !MissesBack(e, date)
  {
    hide Fires, NextCall, ExactBack, Year;
    if MissesBack(e, date) {
      var dot := Year(Day(date)) - 1900;
      var u, f :| NextCall(e, date, dot, u) && u < f < date && Fires(e, f);
      NothingMissedBack(e, date, dot, u);
    }
  }

  /** From 1970-01-01 00:01:05, twice a minute once an hour: the search goes on from 00:00:00, though the
      expression fires at 00:00:30. */
  lemma SecondMissedBackAt65(e: Expr)
    requires Parsed(e) && e.seconds == {0, 30} && e.minutes == {0} && All(e.hours, 0, 23)
    requires All(e.daysOfMonth, 1, 31) && All(e.daysOfWeek, 0, 6) && All(e.months, 0, 11)
    ensures NextCall(e, 65, 70, 0) && Fires(e, 30) && MissesBack(e, 65)
  {
    hide NextCall, MissesBack, DayOk, MonthOk, MonthOf, MonthFirst;
    L.AnyDay(e, 0);
    L.MinuteOfDay(e, 0, 0, 0);
    EpochStart();
    NextMonth(12 * 1970);
    MonthLengths(12 * 1970);
    MonthUnique(0, 12 * 1970);
    MinuteArrivesBack(e, 1, 70, 0, 5);
    SecondMissedBack(e, 65, 70, 0, 0, 30);
    DayOfMinute(30);
  }
}
