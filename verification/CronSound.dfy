/** Exactly for which expressions a result of the search forward matches all fields. */
module CronSound {
  import opened Calendar
  import opened CronTime
  import opened CronExpr
  import opened CronForward
  import opened CronGoals
  import opened CronSearch

  // ---- The calendar repeats itself ---------------------------------------------------------

  const CYCLE: int := 146097

  lemma LeapCycle(y: int)
    ensures YearFirst(y + 400) == YearFirst(y) + CYCLE && (IsLeap(y + 400) <==> IsLeap(y))
  {
    var a, b, c := y - 1969, y - 1901, y - 1601;
    FloorIs(a + 400, 4, a / 4 + 100, a % 4);
    FloorIs(b + 400, 100, b / 100 + 4, b % 100);
    FloorIs(c + 400, 400, c / 400 + 1, c % 400);
    FloorIs(y + 400, 4, y / 4 + 100, y % 4);
    FloorIs(y + 400, 100, y / 100 + 4, y % 100);
    FloorIs(y + 400, 400, y / 400 + 1, y % 400);
  }

  lemma MonthCycle(k: int)
    ensures MonthFirst(k + 4800) == MonthFirst(k) + CYCLE && (k + 4800) % 12 == k % 12
  {
    FloorIs(k + 4800, 12, k / 12 + 400, k % 12);
    LeapCycle(k / 12);
    hide YearFirst, IsLeap;
  }

  /** 400 years have a whole number of weeks. */
  lemma DayCycle(day: int)
    ensures Mday(day + CYCLE) == Mday(day) && Wday(day + CYCLE) == Wday(day) && Mon(day + CYCLE) == Mon(day)
  {
    hide MonthFirst, MonthOf;
    var k := MonthOf(day);
    MonthCycle(k);
    MonthCycle(k + 1);
    assert k + 4801 == k + 4800 + 1 == k + 1 + 4800;
    MonthUnique(day + CYCLE, k + 4800);
    FloorIs(day + 4 + CYCLE, 7, (day + 4) / 7 + 20871, (day + 4) % 7);
  }

  lemma OkCycle(e: Expr, day: int)
    ensures (DayOk(e, day + CYCLE) <==> DayOk(e, day)) && (MonthOk(e, day + CYCLE) <==> MonthOk(e, day))
  {
    hide Mday, Wday, Mon;
    DayCycle(day);
  }

  /** A day n days on, of the same number, which is taken for a match though it may be none. */
  ghost predicate WrongDay(e: Expr, d: int, n: int) {
    && Trap(e, d, n) && MonthOk(e, d + n)
    && !(DayOk(e, d + n) && 0 in e.hours && 0 in e.minutes && 0 in e.seconds)
  }

  lemma DaysOnCycle(e: Expr, d: int, n: int)
    requires DaysOn(e, d, n)
    ensures DaysOn(e, d + CYCLE, n)
  {
    hide DayOk, MonthOk, Mday;
    forall x | d + CYCLE <= x < d + CYCLE + n ensures !DayOk(e, x) {
      OkBefore(e, x);
    }
    OkBefore(e, d + CYCLE + n);
  }

  lemma OkBefore(e: Expr, x: int)
    ensures DayOk(e, x) <==> DayOk(e, x - CYCLE)
  {
    hide DayOk, MonthOk;
    OkCycle(e, x - CYCLE);
  }

  lemma WrongCycle(e: Expr, d: int, n: int)
    requires WrongDay(e, d, n)
    ensures WrongDay(e, d + CYCLE, n)
  {
    hide DayOk, MonthOk, Mday, Mon, Wday, DaysOn;
    OkCycle(e, d);
    OkCycle(e, d + n);
    DayCycle(d);
    DayCycle(d + n);
    DaysOnCycle(e, d, n);
    assert d + CYCLE + n == d + n + CYCLE;
  }

  lemma {:induction false} WrongAfter(e: Expr, d: int, n: int, c: nat) returns (b: int)
    requires WrongDay(e, d, n)
    ensures WrongDay(e, b, n) && b >= d + c
    decreases c
  {
    hide WrongDay;
    if c == 0 {
      b := d;
    } else {
      b := WrongAfter(e, d, n, c - 1);
      WrongCycle(e, b, n);
      b := b + CYCLE;
    }
  }

  // ---- The condition -----------------------------------------------------------------------

  lemma TimeOnDay(e: Expr, x: int) returns (t: int)
    requires Parsed(e)
    ensures Matches(e, t, 2) && Day(t) == x && x * DAY <= t
  {
    hide Day;
    var h := Member(e.hours, 0, 23);
    var m := Member(e.minutes, 0, 59);
    var s := Member(e.seconds, 0, 59);
    t := x * DAY + h * 3600 + m * 60 + s;
    var j := x * 1440 + h * 60 + m;
    SecondOf(j, s);
    FloorIs(j, 60, x * 24 + h, m);
    FloorIs(x * 24 + h, 24, x, h);
    FloorIs(t, 3600, x * 24 + h, m * 60 + s);
    InDay(t, x);
  }

  lemma WrongStrays(e: Expr, d: int, n: int, date: int)
    requires WrongDay(e, d, n) && Matches(e, date, 2) && Day(date) == d && date >= 0
    ensures Strays(e, date)
  {
    hide Trap, DayOk, MonthOk, Matches;
    var v := (d + n) * DAY;
    DayAt(v, d + n, 0);
    FloorIs(v, DAY, d + n, 0);
    MidnightIs(v);
    DayOfMinute(v);
    assert StraysTo(e, date, v) && !Fires(e, v);
  }

  lemma SomeStray(e: Expr) returns (date: int)
    requires Parsed(e) && !Sound(e)
    ensures Strays(e, date)
  {
    hide Parsed, Strays, DayOk, MonthOk, Matches;
    var d, n :| Trap(e, d, n) && MonthOk(e, d + n) && !(DayOk(e, d + n) && 0 in e.hours && 0 in e.minutes && 0 in e.seconds);
    var b := WrongAfter(e, d, n, if d >= 0 then 0 else -d);
    date := TimeOnDay(e, b);
    WrongStrays(e, b, n, date);
  }

  lemma NoStray(e: Expr, date: int)
    requires Sound(e)
    ensures !Strays(e, date)
  {
    hide Fires, MonthOk, DayOk, Sec, Min, Hour;
    if Strays(e, date) {
      var v :| StraysTo(e, date, v) && !Fires(e, v);
      var n :| Trap(e, Day(date), n) && MonthOk(e, Day(date) + n) && v == (Day(date) + n) * DAY;
      StrayFires(e, date, true, n, v);
    }
  }

  /** No search takes a wrong time for a match exactly for these expressions. */
  lemma SoundIff(e: Expr)
    requires Parsed(e)
    ensures Sound(e) <==> forall date :: !Strays(e, date)
  {
    hide Parsed, Sound, Strays;
    if Sound(e) {
      forall date ensures !Strays(e, date) {
        NoStray(e, date);
      }
    } else {
      var date := SomeStray(e);
    }
  }

  /** From Tuesday, 2001-02-13 09:00:00, the search for a Friday 13 at 09:00:00 comes to 2001-04-13 00:00:00. */
  lemma FridayThirteenth(e: Expr)
    requires Parsed(e) && e.seconds == {0} && e.minutes == {0} && e.hours == {9} && e.daysOfMonth == {13} && e.daysOfWeek == {5}
    requires All(e.months, 0, 11)
    ensures StraysTo(e, 982054800, 987120000) && !Fires(e, 987120000) && Strays(e, 982054800)
  {
    hide Trap, DayOk, MonthOk, Mon, MonthFirst, MonthOf;
    Thirteenths(e);
    NineOClock();
    assert 0 <= Mon(11425) <= 11;
    MonthIsMon(e, 11425);
    assert Trap(e, Day(982054800), 59);
    DayOfMinute(987120000);
  }

  lemma NineOClock()
    ensures var t := 982054800; Day(t) == 11366 && Hour(t) == 9 && Min(t) == 0 && Sec(t) == 0
    ensures var v := 987120000; v == 11425 * DAY && Hour(v) == 0
  {}

  lemma Thirteenths(e: Expr)
    requires e.daysOfMonth == {13} && e.daysOfWeek == {5}
    ensures Trap(e, 11366, 59) && DayOk(e, 11425)
  {
    hide MonthFirst, MonthOf, Mday, Wday;
    MonthsOf2001();
    WeekdaysOf2001();
    forall x | 11366 <= x < 11425 ensures !DayOk(e, x) {
      var k := if x < 11382 then 24013 else if x < 11413 then 24014 else 24015;
      MonthUnique(x, k);
      MdayIs(x);
    }
    MonthUnique(11425, 24015);
    MdayIs(11425);
    MonthUnique(11366, 24013);
    MdayIs(11366);
  }

  lemma WeekdaysOf2001()
    ensures Wday(11366) == 2 && Wday(11394) == 2 && Wday(11425) == 5
  {}
}
