/** Exactly for which expressions the search forward finds the least time from every date. */
module CronLeast {
  import opened Calendar
  import opened CronTime
  import opened CronExpr
  import opened CronForward
  import opened CronGoals
  import opened CronSearch

  // ---- Nothing is missed -------------------------------------------------------------------

  lemma NothingMissed(e: Expr, t: int, u: int)
    requires Exact(e) && CallFrom(e, t, u)
    ensures NoFires(e, t, u)
  {
    hide NextTime, Sec, Min, Hour, DayOk, MonthOk, LowKeep, NoGap, Open, LandsRight, AllOrNone, NextDayIs, Fires,
      Landing, Clear, Fresh, NoneDue, NoneFires;
    SecondStep(e, t);
    var s, sec := NextTime(e.seconds, 60, Second, Minute, t, []), Sec(t) in e.seconds;
    Starts(e, t, s, sec, 0);
    if Min(s) !in e.minutes {
      var v := MinuteMoves(e, s, sec);
    } else if Hour(s) !in e.hours {
      var v := HourMoves(e, s, sec);
    } else if !DayOk(e, Day(s)) {
      DayMoves(e, s, u, sec);
    } else {
      var v := MonthMoves(e, s, sec);
    }
  }

  lemma FiringCan(e: Expr, t: int)
    requires Fires(e, t)
    ensures CanFire(e)
  {
    hide MonthOf, MonthFirst, Mday, Due;
    MdayRange(Day(t));
    FiresOnDay(e, t);
    assert HasDay(Mon(Day(t)), Mday(Day(t)));
  }

  lemma FiresOnDay(e: Expr, t: int)
    requires Fires(e, t)
    ensures DayOk(e, Day(t)) && MonthOk(e, Day(t))
  {
    DayOfMinute(t);
  }

  // ---- A month is missed -------------------------------------------------------------------

  /** A day of a listed month that has a listed day. */
  lemma FiringDay(e: Expr, n: int, a: int) returns (x: int)
    requires Parsed(e) && OneDayFree(e) && n % 12 in e.months && a in e.daysOfMonth && a <= MonthLength(n)
    ensures DayOk(e, x) && MonthOk(e, x) && MonthOf(x) == n
  {
    hide MonthFirst, MonthOf, Mday, Wday;
    MonthLengths(n);
    if All(e.daysOfMonth, 1, 31) {
      var v := Member(e.daysOfWeek, 0, 6);
      var m := WeekdaySoon(MonthFirst(n), v);
      x := MonthFirst(n) + m;
      CarryAtMost(n, m + 1);
    } else {
      x := MonthFirst(n) + a - 1;
      CarryAtMost(n, a);
      assert 0 <= Wday(x) <= 6;
    }
  }

  lemma FiringTime(e: Expr, x: int) returns (f: int)
    requires Parsed(e) && DayOk(e, x) && MonthOk(e, x)
    ensures Final(e, f) && Fires(e, f) && MonthOk(e, Day(f)) && Day(f) == x
  {
    hide DayOk, MonthOk, Day;
    var h := Member(e.hours, 0, 23);
    var m := Member(e.minutes, 0, 59);
    var s := LastSecond(e);
    f := FinalAt(e, x, h, m, s);
    InDay(f, x);
    FinalFires(e, f, x);
  }

  /** From a day that the next month, which is listed, does not have, the search goes on behind that month. */
  lemma LeapsOver(e: Expr, t: int, n: int)
    requires Parsed(e) && Matches(e, t, 3) && MonthOf(Day(t)) == n - 1 && Mday(Day(t)) > MonthLength(n)
    requires n % 12 >= 1 && n % 12 in e.months && n % 12 - 1 !in e.months
    ensures CallFrom(e, t, MonthFirst(n + 1) * DAY) && Fresh(e, MonthFirst(n + 1) * DAY)
  {
    hide NextTime, MonthFirst, MonthOf, Mday, MonthLength, DayOk, Fresh, Sec, Min, Hour;
    SecondStep(e, t);
    FloorIs(n - 1, 12, n / 12, n % 12 - 1);
    assert NextMonthOf(e, n - 1) == n;
    var u := MonthMovesTo(e, t);
  }

  lemma MonthMovesTo(e: Expr, t: int) returns (u: int)
    requires Parsed(e) && Matches(e, t, 3) && !MonthOk(e, Day(t))
    ensures u == NextTime(e.months, 12, Month, Years, t, Lower(true, 3)) == MonthFirst(Landing(e, Day(t))) * DAY && Fresh(e, u)
  {
    hide NextTime, MonthFirst, Landing, DayOk, MonthOk, Fresh, Clear, Sec, Min, Hour;
    u := MonthMoves(e, t, true);
  }

  /** If that month has a listed day, a time is missed. */
  lemma MonthMissed(e: Expr, t: int, n: int, a: int)
    requires Parsed(e) && OneDayFree(e) && Matches(e, t, 3) && MonthOf(Day(t)) == n - 1 && Mday(Day(t)) > MonthLength(n)
    requires n % 12 >= 1 && n % 12 in e.months && n % 12 - 1 !in e.months
    requires a in e.daysOfMonth && a <= MonthLength(n) == MonthLength(n + 48) && t >= 0
    ensures Misses(e, t)
  {
    hide MonthFirst, MonthOf, Mday, MonthLength, DayOk, MonthOk, Fresh, CallFrom, Matches, Final, Fires, LandsRight, DaysFound, Day;
    FreeDaysFound(e);
    LeapsOver(e, t, n);
    var x := FiringDay(e, n, a);
    var f := FiringTime(e, x);
    FloorIs(n + 48, 12, n / 12 + 4, n % 12);
    var y := FiringDay(e, n + 48, a);
    var g := FiringTime(e, y);
    InItsTurn(t, f, n);
    FloorIs(n - 1, 12, n / 12, n % 12 - 1);
    BehindMonth(g, n);
    MonthsGrow(n, n + 1);
    EpochFirst(t, n);
    assert FiresBy(e, MonthFirst(n + 1) * DAY, Year(Day(t)) - 1900);
  }

  lemma InItsTurn(t: int, f: int, n: int)
    requires MonthOf(Day(t)) == n - 1 && MonthOf(Day(f)) == n
    ensures t < f < MonthFirst(n + 1) * DAY
  {
    hide MonthFirst, MonthOf;
    DayEnds(t);
    DayEnds(f);
  }

  lemma BehindMonth(g: int, n: int)
    requires MonthOf(Day(g)) == n + 48
    ensures MonthFirst(n + 1) * DAY <= g && Year(Day(g)) == n / 12 + 4
  {
    hide MonthFirst, MonthOf;
    DayEnds(g);
    MonthsGrow(n + 1, n + 48);
  }

  lemma EpochFirst(t: int, n: int)
    requires t >= 0 && MonthOf(Day(t)) == n - 1
    ensures MonthFirst(n + 1) * DAY >= 0
  {
    hide MonthFirst, MonthOf;
    DayEnds(t);
    LaterMonth(Day(t), n + 1);
  }

  /** The month k of year y and the one before it, where the latter is longer. */
  lemma ShortMonths(y: int, k: int)
    requires 2001 <= y <= 2010 && 1 <= k <= 11 && CommonLength(k) < 31
    ensures var n := 12 * y + k;
      && n % 12 == k && (n - 1) % 12 == k - 1 && MonthLength(n - 1) == 31 && MonthLength(n) == MonthLength(n + 48)
      && (!IsLeap(y) ==> MonthLength(n) == CommonLength(k)) && (y == 2004 && k == 1 ==> MonthLength(n) == 29)
  {
    var n := 12 * y + k;
    FloorIs(n, 12, y, k);
    FloorIs(n - 1, 12, y, k - 1);
    FloorIs(n + 48, 12, y + 4, k);
  }

  /** Years for a month of that length. */
  lemma YearFor(k: int, length: int) returns (y: int)
    requires length == CommonLength(k) || (k == 1 && length == 29)
    ensures 2001 <= y <= 2010 && (if length == CommonLength(k) then !IsLeap(y) else y == 2004)
  {
    y := if length == CommonLength(k) then 2001 else 2004;
  }

  lemma SomeAndSome(e: Expr, length: int) returns (a: int, d: int)
    requires !AllOrNone(e, length)
    ensures a in e.daysOfMonth && d in e.daysOfMonth && a <= length < d
  {
    a :| a in e.daysOfMonth && a <= length;
    d :| d in e.daysOfMonth && d > length;
  }

  /** A matching day of the month before k that a month of that length does not have. */
  lemma TooLateDay(e: Expr, k: int, length: int) returns (x: int, n: int, a: int)
    requires Parsed(e) && OneDayFree(e) && 1 <= k <= 11 && !AllOrNone(e, length)
    requires length == CommonLength(k) || (k == 1 && length == 29 && !All(e.daysOfMonth, 1, 31))
    ensures DayOk(e, x) && MonthOf(x) == n - 1 && Mday(x) > MonthLength(n) == MonthLength(n + 48) && n % 12 == k
    ensures a in e.daysOfMonth && a <= MonthLength(n) && x >= 0
  {
    hide MonthFirst, MonthOf, Mday, Wday, MonthLength, YearFirst, IsLeap;
    var y, d;
    a, d := SomeAndSome(e, length);
    var v := Member(e.daysOfWeek, 0, 6);
    if All(e.daysOfMonth, 1, 31) {
      y := CommonYear((v - 4 - 30 - DaysBefore(k - 1)) % 7);
      d := 31;
    } else {
      y := YearFor(k, length);
    }
    n := 12 * y + k;
    ShortMonths(y, k);
    x := MonthFirst(n - 1) + d - 1;
    CarryAtMost(n - 1, d);
    EpochStart();
    MonthsGrow(12 * 1970, n - 1);
    if All(e.daysOfMonth, 1, 31) {
      CommonFirst(y, k - 1);
      WeekdayIs(x, YearFirst(y), DaysBefore(k - 1), v);
    } else {
      assert 0 <= Wday(x) <= 6;
    }
  }

  /** Where the month may not be set before the day, a time is missed. */
  lemma SomeMonthMissed(e: Expr) returns (t: int)
    requires Parsed(e) && OneDayFree(e) && !LandsRight(e)
    ensures Misses(e, t)
  {
    var k :| 1 <= k <= 11 && k in e.months && k - 1 !in e.months && !(AllOrNone(e, CommonLength(k)) && (k == 1 ==> AllOrNone(e, 29)));
    hide MonthFirst, MonthOf, Mday, MonthLength, DayOk, Misses, Matches, Final, AllOrNone, OneDayFree, Parsed;
    AllInFebruary(e, k);
    var x, n, a := TooLateDay(e, k, if AllOrNone(e, CommonLength(k)) then 29 else CommonLength(k));
    t := MatchOnDay(e, x);
    MonthMissed(e, t, n, a);
  }

  lemma AllInFebruary(e: Expr, k: int)
    ensures All(e.daysOfMonth, 1, 31) && !AllOrNone(e, 29) && k == 1 ==> !AllOrNone(e, CommonLength(k))
  {
    if All(e.daysOfMonth, 1, 31) {
      assert 1 in e.daysOfMonth && 31 in e.daysOfMonth;
    }
  }

  lemma MatchOnDay(e: Expr, x: int) returns (t: int)
    requires Parsed(e) && DayOk(e, x) && x >= 0
    ensures Matches(e, t, 3) && Day(t) == x && t >= 0
  {
    hide DayOk, Day;
    var h := Member(e.hours, 0, 23);
    var m := Member(e.minutes, 0, 59);
    var s := LastSecond(e);
    t := FinalAt(e, x, h, m, s);
    InDay(t, x);
    DayOfMinute(t);
  }

  // ---- A second is missed ------------------------------------------------------------------

  /** Second b is in a gap of the list: the next one listed is w. */
  predicate InGap(e: Expr, b: int, w: int) {
    0 <= b < w < 60 && w in e.seconds && forall x | b <= x < w :: x !in e.seconds
  }

  lemma Gap(e: Expr) returns (a: int, b: int, w: int)
    requires Parsed(e) && !NoGap(e.seconds)
    ensures a in e.seconds && 0 <= a < b && InGap(e, b, w)
  {
    var x, c, y :| x in e.seconds && c in e.seconds && x < y < c && y !in e.seconds;
    a, b := x, y;
    w := FirstIn(e.seconds, b, 60);
  }

  lemma SecondMoves(e: Expr, j: int, b: int, w: int)
    requires Parsed(e) && InGap(e, b, w)
    ensures NextTime(e.seconds, 60, Second, Minute, j * 60 + b, []) == j * 60 + w && Sec(j * 60 + b) !in e.seconds
    ensures Sec(j * 60 + w) == w && (j * 60 + w) / 60 == j
  {
    hide NextTime, Sec;
    var t := j * 60 + b;
    SecondStep(e, t);
    SecondOf(j, b);
    SecondOf(j, w);
    var u := NextTime(e.seconds, 60, Second, Minute, t, []);
    SecondParts(u);
    assert Sec(j * 60 + w) in e.seconds;
  }

  /** From a minute that is not listed to the next one. */
  lemma MinuteArrives(e: Expr, j: int, b: int, w: int)
    requires Parsed(e) && InGap(e, b, w) && j % 60 !in e.minutes && (j + 1) % 60 in e.minutes
    ensures CallFrom(e, j * 60 + b, (j + 1) * 60 + w)
  {
    hide NextTime, Sec, InGap;
    SecondMoves(e, j, b, w);
    MinuteStep(e, j * 60 + w, false);
    SecondParts(NextTime(e.minutes, 60, Minute, Hours, j * 60 + w, Lower(false, 0)));
  }

  /** From the end of an hour that is not listed. */
  lemma HourArrives(e: Expr, h: int, b: int, w: int)
    requires Parsed(e) && InGap(e, b, w) && h % 24 !in e.hours && (h + 1) % 24 in e.hours && 59 in e.minutes
    ensures CallFrom(e, (h * 60 + 59) * 60 + b, (h + 1) * 3600 + w)
  {
    hide NextTime, Sec, InGap;
    var j := h * 60 + 59;
    SecondMoves(e, j, b, w);
    var s := j * 60 + w;
    FloorIs(j, 60, h, 59);
    InGapRange(e, b, w);
    FloorIs(s, 3600, h, 3540 + w);
    HourStep(e, s, false);
    var u := NextTime(e.hours, 24, Hours, DayOfWeek, s, Lower(false, 1));
    assert u == u / 3600 * 3600 + u % 3600;
  }

  lemma InGapRange(e: Expr, b: int, w: int)
    requires InGap(e, b, w)
    ensures 0 <= b < w < 60 && w in e.seconds
  {}

  /** From the end of a day that does not match. */
  lemma DayArrives(e: Expr, x: int, b: int, w: int)
    requires Parsed(e) && InGap(e, b, w) && !DayOk(e, x) && DayOk(e, x + 1) && 59 in e.minutes && 23 in e.hours
    ensures CallFrom(e, (x * 1440 + 1439) * 60 + b, (x + 1) * DAY + w)
  {
    hide NextTime, Sec, Min, Hour, Day, Mday, InGap, DayOk;
    var j := x * 1440 + 1439;
    SecondMoves(e, j, b, w);
    InGapRange(e, b, w);
    EndOfDay(x, w);
    DayAt((x + 1) * DAY + w, x + 1, w);
    DaysApart(x, x + 1);
    assert NextDayIs(e, j * 60 + w, (x + 1) * DAY + w, false);
  }

  lemma EndOfDay(x: int, w: int)
    requires 0 <= w < 60
    ensures var t := (x * 1440 + 1439) * 60 + w; Day(t) == x && Hour(t) == 23 && Min(t) == 59
  {
    var t := (x * 1440 + 1439) * 60 + w;
    FloorIs(t, DAY, x, 86340 + w);
    FloorIs(t, 3600, x * 24 + 23, 3540 + w);
    FloorIs(t, 60, x * 1440 + 1439, w);
    FloorIs(x * 24 + 23, 24, x, 23);
    FloorIs(x * 1440 + 1439, 60, x * 24 + 23, 59);
  }

  /** From the first day of a month that is not listed. */
  lemma MonthArrives(e: Expr, n: int, b: int, w: int)
    requires Parsed(e) && InGap(e, b, w) && (n - 1) % 12 !in e.months && n % 12 in e.months && 0 in e.minutes && 0 in e.hours
    requires DayOk(e, MonthFirst(n - 1))
    ensures CallFrom(e, MonthFirst(n - 1) * DAY + b, MonthFirst(n) * DAY + w)
  {
    hide NextTime, Sec, InGap, DayOk, MonthFirst, MonthOf, Mday, MonthLength, Min, Hour;
    var j := MonthFirst(n - 1) * 1440;
    SecondMoves(e, j, b, w);
    InGapRange(e, b, w);
    FirstTime(n - 1, w);
    Midnight(MonthFirst(n - 1), w);
    NextIs(e, n);
    MonthLengths(n);
    MonthStep(e, j * 60 + w, false);
  }

  lemma Midnight(x: int, w: int)
    requires 0 <= w < 60
    ensures Min(x * DAY + w) == 0 && Hour(x * DAY + w) == 0
  {
    FloorIs(x * DAY + w, 3600, x * 24, w);
    FloorIs(x * DAY + w, 60, x * 1440, w);
    FloorIs(x * 24, 24, x, 0);
    FloorIs(x * 1440, 60, x * 24, 0);
  }

  lemma NextIs(e: Expr, n: int)
    requires Parsed(e) && (n - 1) % 12 !in e.months && n % 12 in e.months
    ensures NextMonthOf(e, n - 1) == n
  {
    MonthsSkipped(e, n - 1);
  }

  /** If the expression fires in the minute that the search goes to, it passes a second by. */
  lemma SecondMissed(e: Expr, t: int, i: int, a: int, w: int)
    requires Parsed(e) && LandsRight(e) && DaysFound(e) && CallFrom(e, t, i * 60 + w) && FiresIn(e, i) && a in e.seconds && w in e.seconds && a < w
    requires 0 <= t < i * 60 && Year(i / 1440) <= Year(Day(t)) + 4
    ensures Misses(e, t)
  {
    hide Due, MonthOk, CallFrom, LandsRight, DaysFound, Year, Fresh, Day;
    SecondOf(i, a);
    SecondOf(i, w);
    DayOfMinute(i * 60 + a);
    var f, u := i * 60 + a, i * 60 + w;
    DayOfMinute(u);
    var g := LastOfMinute(e, u);
    assert FiresBy(e, u, Year(Day(t)) - 1900);
    assert t < f < u && Fires(e, f);
  }

  /** A listed value whose predecessor, around the end, is not listed. */
  lemma Edge(s: set<int>, n: int) returns (m: int)
    requires n > 0 && Within(s, 0, n - 1) && !All(s, 0, n - 1)
    ensures m in s && 0 <= m < n && (if m == 0 then n - 1 else m - 1) !in s
  {
    var y := Member(s, 0, n - 1);
    var x :| 0 <= x <= n - 1 && x !in s;
    m := FirstIn(s, x, n);
    if m == -1 {
      m := FirstIn(s, 0, n);
    }
  }

  /** Months of the leap year 2000. */
  lemma MonthsOf2000(k: int)
    requires 0 <= k <= 11
    ensures (24000 + k) % 12 == k && (24000 + k) / 12 == 2000 && MonthLength(24000 + k) == if k == 1 then 29 else CommonLength(k)
    ensures MonthFirst(24000 + k) >= 10957
  {
    FloorIs(24000 + k, 12, 2000, k);
    hide MonthFirst, MonthLength;
    MonthsGrow(24000, 24000 + k);
    January2000();
    LongFebruary(k);
  }

  lemma LongFebruary(k: int)
    requires 0 <= k <= 11 && (24000 + k) % 12 == k && (24000 + k) / 12 == 2000
    ensures MonthLength(24000 + k) == if k == 1 then 29 else CommonLength(k)
  {}

  lemma January2000()
    ensures MonthFirst(24000) == 10957
  {}

  lemma DayOf2000(e: Expr, k: int, d: int) returns (x: int)
    requires Parsed(e) && OneDayFree(e) && k in e.months && d in e.daysOfMonth && HasDay(k, d)
    ensures DayOk(e, x) && MonthOk(e, x) && x >= 1 && Year(x) == 2000
  {
    hide MonthFirst, MonthOf, MonthLength, DayOk, MonthOk;
    MonthsOf2000(k);
    x := FiringDay(e, 24000 + k, d);
  }

  /** The minute of a matching day. */
  lemma MinuteOfDay(e: Expr, x: int, h: int, m: int)
    requires DayOk(e, x) && MonthOk(e, x) && h in e.hours && 0 <= h < 24 && m in e.minutes && 0 <= m < 60
    ensures var i := x * 1440 + h * 60 + m; FiresIn(e, i) && i / 1440 == x
  {
    hide DayOk, MonthOk;
    var i := x * 1440 + h * 60 + m;
    FloorIs(i, 60, x * 24 + h, m);
    FloorIs(x * 24 + h, 24, x, h);
    FloorIs(i, 1440, x, h * 60 + m);
  }

  lemma YearOfDayBefore(t: int, x: int)
    requires (x - 1) * DAY <= t
    ensures Year(x) <= Year(Day(t)) + 4
  {
    hide Year, Day;
    DayEnds(t);
    Within367(x - 1, x);
    YearMonotone(x - 1, Day(t));
  }

  lemma MissedInHour(e: Expr, a: int, b: int, w: int, x: int) returns (t: int)
    requires Parsed(e) && LandsRight(e) && DaysFound(e) && a in e.seconds && 0 <= a < b && InGap(e, b, w) && !All(e.minutes, 0, 59)
    requires DayOk(e, x) && MonthOk(e, x) && x >= 1
    ensures Misses(e, t)
  {
    hide DayOk, MonthOk, LandsRight, DaysFound, Misses, CallFrom, InGap, FiresIn, Year, Day;
    var h := Member(e.hours, 0, 23);
    var m := Edge(e.minutes, 60);
    var j := x * 1440 + h * 60 + m - 1;
    t := j * 60 + b;
    InGapRange(e, b, w);
    FloorIs(j, 60, if m == 0 then x * 24 + h - 1 else x * 24 + h, if m == 0 then 59 else m - 1);
    FloorIs(j + 1, 60, x * 24 + h, m);
    MinuteArrives(e, j, b, w);
    MinuteOfDay(e, x, h, m);
    YearOfDayBefore(t, x);
    SecondMissed(e, t, j + 1, a, w);
  }

  lemma MissedInDay(e: Expr, a: int, b: int, w: int, x: int) returns (t: int)
    requires Parsed(e) && LandsRight(e) && DaysFound(e) && a in e.seconds && 0 <= a < b && InGap(e, b, w) && All(e.minutes, 0, 59) && !All(e.hours, 0, 23)
    requires DayOk(e, x) && MonthOk(e, x) && x >= 1
    ensures Misses(e, t)
  {
    hide DayOk, MonthOk, LandsRight, DaysFound, Misses, CallFrom, InGap, FiresIn, Year, Day;
    var h := Edge(e.hours, 24);
    var j := x * 24 + h - 1;
    t := (j * 60 + 59) * 60 + b;
    InGapRange(e, b, w);
    FloorIs(j, 24, if h == 0 then x - 1 else x, if h == 0 then 23 else h - 1);
    FloorIs(j + 1, 24, x, h);
    HourArrives(e, j, b, w);
    MinuteOfDay(e, x, h, 0);
    YearOfDayBefore(t, x);
    SecondMissed(e, t, x * 1440 + h * 60, a, w);
  }

  lemma MissedAtDay(e: Expr, a: int, b: int, w: int, x: int) returns (t: int)
    requires Parsed(e) && LandsRight(e) && DaysFound(e) && a in e.seconds && 0 <= a < b && InGap(e, b, w) && All(e.minutes, 0, 59) && All(e.hours, 0, 23)
    requires DayOk(e, x) && MonthOk(e, x) && x >= 1 && !DayOk(e, x - 1)
    ensures Misses(e, t)
  {
    hide DayOk, MonthOk, LandsRight, DaysFound, Misses, CallFrom, InGap, FiresIn, Year, Day;
    t := ((x - 1) * 1440 + 1439) * 60 + b;
    InGapRange(e, b, w);
    DayArrives(e, x - 1, b, w);
    MinuteOfDay(e, x, 0, 0);
    YearOfDayBefore(t, x);
    SecondMissed(e, t, x * 1440, a, w);
  }

  lemma MissedInYear(e: Expr, a: int, b: int, w: int) returns (t: int)
    requires Parsed(e) && LandsRight(e) && DaysFound(e) && a in e.seconds && 0 <= a < b && InGap(e, b, w) && All(e.minutes, 0, 59) && All(e.hours, 0, 23)
    requires !All(e.months, 0, 11) && 1 in e.daysOfMonth && All(e.daysOfWeek, 0, 6)
    ensures Misses(e, t)
  {
    hide LandsRight, DaysFound, Misses, CallFrom, InGap, FiresIn, Day, MonthFirst, MonthOf, Mday, Wday, MonthLength;
    var k := Edge(e.months, 12);
    var n := 24000 + k;
    t := MonthFirst(n - 1) * DAY + b;
    InGapRange(e, b, w);
    MonthsOf2000(k);
    FloorIs(n - 1, 12, if k == 0 then 1999 else 2000, if k == 0 then 11 else k - 1);
    MonthLengths(n - 1);
    NextMonth(n - 1);
    FirstDay(e, n);
    FirstDay(e, n - 1);
    MonthArrives(e, n, b, w);
    MinuteOfDay(e, MonthFirst(n), 0, 0);
    FirstTime(n - 1, b);
    SecondMissed(e, t, MonthFirst(n) * 1440, a, w);
  }

  lemma FirstDay(e: Expr, n: int)
    requires 1 in e.daysOfMonth && All(e.daysOfWeek, 0, 6)
    ensures DayOk(e, MonthFirst(n)) && MonthOf(MonthFirst(n)) == n
  {
    hide MonthFirst, MonthOf, Mday, Wday, MonthLength;
    MonthLengths(n);
    CarryAtMost(n, 1);
    assert 0 <= Wday(MonthFirst(n)) <= 6;
  }

  /** Down to the first day of a listed month, one comes to a day whose predecessor is not listed. */
  lemma DayEdge(e: Expr, k: int, d0: int) returns (d: int)
    requires Parsed(e) && d0 in e.daysOfMonth && HasDay(k, d0)
    ensures 1 <= d <= d0 && HasDay(k, d) && (d == 1 || d - 1 !in e.daysOfMonth) && forall y | d <= y <= d0 :: y in e.daysOfMonth
  {
    d := d0;
    while d > 1 && d - 1 in e.daysOfMonth
      invariant 1 <= d <= d0 && HasDay(k, d) && forall y | d <= y <= d0 :: y in e.daysOfMonth
      decreases d
    {
      d := d - 1;
    }
  }

  /** A listed day of a listed month. */
  lemma ListedDay(e: Expr, k: int, d: int) returns (x: int)
    requires Parsed(e) && All(e.daysOfWeek, 0, 6) && k in e.months && d in e.daysOfMonth && HasDay(k, d)
    ensures DayOk(e, x) && MonthOk(e, x) && x >= 1 && (d > 1 && d - 1 !in e.daysOfMonth ==> !DayOk(e, x - 1))
    ensures d == 1 && k == 1 && 31 !in e.daysOfMonth ==> !DayOk(e, x - 1)
  {
    hide MonthFirst, MonthOf, MonthLength, Mday, Wday;
    MonthsOf2000(k);
    var n := 24000 + k;
    x := MonthFirst(n) + d - 1;
    CarryAtMost(n, d);
    assert 0 <= Wday(x) <= 6;
    if d > 1 {
      CarryAtMost(n, d - 1);
    } else if k == 1 {
      MonthsOf2000(0);
      NextMonth(24000);
      CarryAtMost(24000, 31);
    }
  }

  /** A listed weekday, after one that is not. */
  lemma ListedWeekday(e: Expr) returns (x: int)
    requires Parsed(e) && All(e.daysOfMonth, 1, 31) && !All(e.daysOfWeek, 0, 6)
    ensures DayOk(e, x) && MonthOk(e, x) && x >= 1 && !DayOk(e, x - 1)
  {
    hide MonthFirst, MonthOf, MonthLength, Mday, Wday;
    var k := Member(e.months, 0, 11);
    var v := Edge(e.daysOfWeek, 7);
    MonthsOf2000(k);
    var n := 24000 + k;
    var m := WeekdaySoon(MonthFirst(n), v);
    x := MonthFirst(n) + m;
    CarryAtMost(n, m + 1);
    DayBeforeThat(x, v);
  }

  lemma DayBeforeThat(x: int, v: int)
    requires Wday(x) == v
    ensures Wday(x - 1) == if v == 0 then 6 else v - 1
  {}

  lemma MissedLater(e: Expr, a: int, b: int, w: int) returns (t: int)
    requires Parsed(e) && OneDayFree(e) && LandsRight(e) && a in e.seconds && 0 <= a < b && InGap(e, b, w)
    requires All(e.minutes, 0, 59) && All(e.hours, 0, 23) && !Open(e) && CanFire(e)
    ensures Misses(e, t)
  {
    hide DayOk, MonthOk, LandsRight, DaysFound, Misses, InGap, HasDay;
    FreeDaysFound(e);
    var x;
    if !All(e.daysOfWeek, 0, 6) {
      x := ListedWeekday(e);
      t := MissedAtDay(e, a, b, w, x);
    } else {
      var k, d0 :| k in e.months && d0 in e.daysOfMonth && HasDay(k, d0);
      var d := DayEdge(e, k, d0);
      if d > 1 {
        x := ListedDay(e, k, d);
        t := MissedAtDay(e, a, b, w, x);
      } else if !All(e.months, 0, 11) {
        t := MissedInYear(e, a, b, w);
      } else {
        x := EndOfList(e);
        t := MissedAtDay(e, a, b, w, x);
      }
    }
  }

  lemma EndOfList(e: Expr) returns (x: int)
    requires Parsed(e) && All(e.daysOfWeek, 0, 6) && All(e.months, 0, 11) && !All(e.daysOfMonth, 1, 31) && 1 in e.daysOfMonth
    ensures DayOk(e, x) && MonthOk(e, x) && x >= 1 && !DayOk(e, x - 1)
  {
    hide DayOk, MonthOk;
    if 31 in e.daysOfMonth {
      var d := DayEdge(e, 0, 31);
      x := ListedDay(e, 0, d);
    } else {
      x := ListedDay(e, 1, 1);
    }
  }

  /** Where seconds may not be kept, a time is missed. */
  lemma SomeSecondMissed(e: Expr) returns (t: int)
    requires Parsed(e) && OneDayFree(e) && LandsRight(e) && !SecondsRight(e) && CanFire(e)
    ensures Misses(e, t)
  {
    hide DayOk, MonthOk, LandsRight, DaysFound, Misses, InGap, HasDay, NoGap;
    FreeDaysFound(e);
    var a, b, w := Gap(e);
    if All(e.minutes, 0, 59) && All(e.hours, 0, 23) {
      t := MissedLater(e, a, b, w);
    } else {
      var k, d :| k in e.months && d in e.daysOfMonth && HasDay(k, d);
      var x := DayOf2000(e, k, d);
      if All(e.minutes, 0, 59) {
        t := MissedInDay(e, a, b, w, x);
      } else {
        t := MissedInHour(e, a, b, w, x);
      }
    }
  }

  // ---- The condition -----------------------------------------------------------------------

  /** The search misses no time from any date exactly for these expressions, and for those that never fire. */
  lemma ExactIff(e: Expr)
    requires Parsed(e) && OneDayFree(e)
    ensures Exact(e) || !CanFire(e) <==> forall date :: !Misses(e, date)
  {
    hide Parsed, OneDayFree, LandsRight, SecondsRight, CanFire, Misses, DaysFound;
    FreeDaysFound(e);
    if Exact(e) || !CanFire(e) {
      forall date ensures !Misses(e, date) {
        ExactMisses(e, date);
      }
    } else if LandsRight(e) {
      var t := SomeSecondMissed(e);
    } else {
      var t := SomeMonthMissed(e);
    }
  }

  lemma ExactMisses(e: Expr, date: int)
    requires Exact(e) || !CanFire(e)
    ensures !Misses(e, date)
  {
    hide Fires, CallFrom, Exact, Sure, CanFire;
    if Misses(e, date) {
      var u, f :| CallFrom(e, date, u) && date < f < u && Fires(e, f) && Sure(e, u, Year(Day(date)) - 1900);
      FiringCan(e, f);
      NothingMissed(e, date, u);
    }
  }

  /** From 2001-01-31 12:00:00, with only February listed, the search goes on from 2001-03-01 00:00:00,
      though the expression fires at 2001-02-01 00:00:00. */
  lemma FebruaryMissed(e: Expr)
    requires Parsed(e) && e.seconds == {0} && All(e.minutes, 0, 59) && All(e.hours, 0, 23)
    requires All(e.daysOfMonth, 1, 31) && All(e.daysOfWeek, 0, 6) && e.months == {1}
    ensures CallFrom(e, 980942400, 983404800) && Fires(e, 980985600) && Misses(e, 980942400)
  {
    hide MonthFirst, MonthOf, MonthLength, Mday, Wday, CallFrom, Misses;
    var t := 980942400;
    MonthsOf2001();
    LengthsOf2001();
    February2005();
    NextMonth(24012);
    January(24012);
    MonthUnique(11353, 24012);
    MdayIs(11353);
    NoonOfJanuary31();
    assert 0 <= Wday(11353) <= 6 && 0 <= Wday(11354) <= 6;
    LeapsOver(e, t, 24013);
    MonthMissed(e, t, 24013, 1);
    MonthUnique(11354, 24013);
    MdayIs(11354);
    DayOfMinute(980985600);
  }

  lemma NoonOfJanuary31()
    ensures var t := 980942400; Day(t) == 11353 && Hour(t) == 12 && Min(t) == 0 && Sec(t) == 0
    ensures var f := 980985600; Day(f) == 11354 && Hour(f) == 0 && Min(f) == 0 && Sec(f) == 0
  {}

  lemma February2005()
    ensures MonthLength(24061) == 28
  {}

  /** From 1970-01-01 00:01:05, twice a minute once an hour: the search goes on from 01:00:30, though the
      expression fires at 01:00:00. */
  lemma SecondMissedAt65(e: Expr)
    requires Parsed(e) && e.seconds == {0, 30} && e.minutes == {0} && All(e.hours, 0, 23)
    requires All(e.daysOfMonth, 1, 31) && All(e.daysOfWeek, 0, 6) && All(e.months, 0, 11)
    ensures CallFrom(e, 65, 3630) && Fires(e, 3600) && Misses(e, 65)
  {
    hide CallFrom, Misses, LandsRight, DaysFound, DayOk, MonthOk, Year;
    SafeLands(e);
    FreeDaysFound(e);
    TwiceAMinute(e);
    AnyDay(e, 0);
    MinuteOfDay(e, 0, 1, 0);
    SecondMissed(e, 65, 60, 0, 30);
    DayOfMinute(3600);
  }

  lemma AnyDay(e: Expr, x: int)
    requires All(e.daysOfMonth, 1, 31) && All(e.daysOfWeek, 0, 6) && All(e.months, 0, 11)
    ensures DayOk(e, x) && MonthOk(e, x)
  {
    hide MonthFirst, MonthOf, Mday, Wday, Mon;
    MdayRange(x);
    assert 0 <= Wday(x) <= 6 && 0 <= Mon(x) <= 11;
  }

  lemma TwiceAMinute(e: Expr)
    requires Parsed(e) && e.seconds == {0, 30} && e.minutes == {0}
    ensures CallFrom(e, 65, 3630)
  {
    hide NextTime;
    SecondMoves(e, 1, 5, 30);
    OnTheHour(e);
  }

  lemma OnTheHour(e: Expr)
    requires e.minutes == {0}
    ensures NextTime(e.minutes, 60, Minute, Hours, 90, Lower(false, 0)) == 3630
  {
    hide SetTo, AddTo, ResetAllMin, Lower;
    assert FirstIn(e.minutes, 1, 60) == -1 && FirstIn(e.minutes, 0, 60) == 0;
    MinuteSet(90, 0);
    ResetSecond(false, 3630);
  }
}
