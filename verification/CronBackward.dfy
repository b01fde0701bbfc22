/** One step of the search for the previous match: where it goes, and that it passes no match by. */
module CronBackward {
  import opened Calendar
  import opened CronTime
  import opened CronExpr
  import opened CronForward

  /** The last element of a set in a range, or -1. */
  function LastIn(s: set<int>, from: int, to: int): (r: int)
    requires to >= 0
    ensures r == -1 ==> forall x | to <= x <= from :: x !in s
    ensures r != -1 ==> r in s && to <= r <= from && forall x | r < x <= from :: x !in s
    decreases from - to
  {
    if from < to then -1 else if from in s then from else LastIn(s, from - 1, to)
  }

  /** Where find_prev moves the time. */
  function PrevTime(s: set<int>, max: int, f: Field, nf: Field, t: int, lower: seq<Field>): int
    requires f != Years && f != DayOfMonth
  {
    hide SetTo, AddTo, Highest, Value;
    var v := Value(f, t);
    var w := LastIn(s, v, 0);
    if w == v then t
    else if w != -1 then ResetAllMax(SetTo(f, t, w), lower)
    else
      var x := LastIn(s, max - 1, v);
      var a := AddTo(nf, t, -1);
      ResetAllMax(SetTo(f, SetTo(f, a, Highest(f, a)), if x == -1 then 0 else x), lower)
  }

  function Keep59(sec: bool, t: int): int {
    if sec then 59 else Sec(t)
  }

  // ---- Resets -------------------------------------------------------------------------------

  lemma {:induction false} ResetAppendMax(t: int, a: seq<Field>, f: Field)
    ensures ResetAllMax(t, a + [f]) == SetTo(f, ResetAllMax(t, a), Highest(f, ResetAllMax(t, a)))
    decreases |a|
  {
    hide SetTo, Highest;
    if a == [] {
      assert a + [f] == [f] && [f][1..] == [];
      NoResetsMax(SetTo(f, t, Highest(f, t)));
    } else {
      assert (a + [f])[0] == a[0] && (a + [f])[1..] == a[1..] + [f];
      ResetAppendMax(SetTo(a[0], t, Highest(a[0], t)), a[1..], f);
    }
  }

  lemma NoResetsMax(t: int)
    ensures ResetAllMax(t, []) == t
  {}

  lemma ResetSecondMax(sec: bool, t: int)
    ensures ResetAllMax(t, Lower(sec, 0)) == t / 60 * 60 + Keep59(sec, t)
  {
    hide SetTo;
    NoResetsMax(t);
    SecondSet(t, 59);
    SecondParts(t);
    if sec {
      assert Lower(sec, 0) == [] + [Second];
      ResetAppendMax(t, [], Second);
    } else {
      assert Lower(sec, 0) == [];
    }
  }

  lemma ResetMinuteMax(sec: bool, t: int)
    ensures ResetAllMax(t, Lower(sec, 1)) == t / 3600 * 3600 + 3540 + Keep59(sec, t)
  {
    hide ResetAllMax, SetTo, Sec;
    assert Lower(sec, 1) == Lower(sec, 0) + [Minute];
    ResetAppendMax(t, Lower(sec, 0), Minute);
    ResetSecondMax(sec, t);
    SecondOf(t / 60, Keep59(sec, t));
    MinuteSet(t / 60 * 60 + Keep59(sec, t), 59);
    TimeParts(t);
    TimeParts(t / 60 * 60 + Keep59(sec, t));
    SecondOf(t / 60, Keep59(sec, t));
    FloorIs(t / 60 * 60 + Keep59(sec, t), 60, t / 60, Keep59(sec, t));
  }

  lemma ResetHourMax(sec: bool, t: int)
    ensures ResetAllMax(t, Lower(sec, 2)) == Day(t) * DAY + 86340 + Keep59(sec, t)
  {
    hide ResetAllMax, SetTo, Sec;
    assert Lower(sec, 2) == Lower(sec, 1) + [Hours];
    ResetAppendMax(t, Lower(sec, 1), Hours);
    ResetMinuteMax(sec, t);
    var r := 3540 + Keep59(sec, t);
    HourParts(t / 3600, r);
    HourSet(t / 3600 * 3600 + r, 23);
    DayParts(t);
  }

  lemma ResetDayMax(sec: bool, t: int)
    ensures ResetAllMax(t, Lower(sec, 3)) == MonthFirst(MonthOf(Day(t)) + 1) * DAY - 60 + Keep59(sec, t)
  {
    hide ResetAllMax, SetTo, Sec, MonthFirst, MonthOf, Day, MonthLength;
    assert Lower(sec, 3) == Lower(sec, 2) + [DayOfMonth];
    ResetAppendMax(t, Lower(sec, 2), DayOfMonth);
    ResetHourMax(sec, t);
    LastOfMonth(Day(t), 86340 + Keep59(sec, t));
  }

  lemma LastOfMonth(day: int, s: int)
    requires 0 <= s < DAY
    ensures var t := day * DAY + s;
      SetTo(DayOfMonth, t, Highest(DayOfMonth, t)) == MonthFirst(MonthOf(day) + 1) * DAY - DAY + s
  {
    hide MonthFirst, MonthOf, MonthLength;
    assert Day(day * DAY + s) == day;
    NextMonth(MonthOf(day));
  }

  // ---- Closed forms ---------------------------------------------------------------------

  /** Rolling under. */
  lemma SecondUnder(t: int, v: int)
    requires 0 <= v < 60
    ensures var a := AddTo(Minute, t, -1); SetTo(Second, SetTo(Second, a, Highest(Second, a)), v) == (t / 60 - 1) * 60 + v
  {
    hide SetTo;
    FloorIs(t - 60, 60, t / 60 - 1, t % 60);
    SecondSet(t - 60, 59);
    FloorIs((t / 60 - 1) * 60 + 59, 60, t / 60 - 1, 59);
    SecondSet((t / 60 - 1) * 60 + 59, v);
  }

  lemma MinuteUnder(t: int, v: int)
    requires 0 <= v < 60
    ensures var a := AddTo(Hours, t, -1); SetTo(Minute, SetTo(Minute, a, Highest(Minute, a)), v) == ((t / 3600 - 1) * 60 + v) * 60 + t % 60
  {
    hide SetTo;
    var h, s := t / 3600, t % 60;
    FloorIs(t - 3600, 3600, h - 1, t % 3600);
    FloorIs(t - 3600, 60, t / 60 - 60, s);
    MinuteSet(t - 3600, 59);
    FloorIs(((h - 1) * 60 + 59) * 60 + s, 3600, h - 1, 3540 + s);
    FloorIs(((h - 1) * 60 + 59) * 60 + s, 60, (h - 1) * 60 + 59, s);
    MinuteSet(((h - 1) * 60 + 59) * 60 + s, v);
  }

  lemma HourUnder(t: int, v: int)
    requires 0 <= v < 24
    ensures var a := AddTo(DayOfWeek, t, -1); SetTo(Hours, SetTo(Hours, a, Highest(Hours, a)), v) == ((Day(t) - 1) * 24 + v) * 3600 + t % 3600
  {
    hide SetTo;
    var d, r := Day(t), t % 3600;
    FloorIs(t - DAY, DAY, d - 1, t % DAY);
    FloorIs(t - DAY, 3600, t / 3600 - 24, r);
    HourSet(t - DAY, 23);
    FloorIs(((d - 1) * 24 + 23) * 3600 + r, DAY, d - 1, 23 * 3600 + r);
    FloorIs(((d - 1) * 24 + 23) * 3600 + r, 3600, (d - 1) * 24 + 23, r);
    HourSet(((d - 1) * 24 + 23) * 3600 + r, v);
  }

  lemma SecondStepBack(e: Expr, t: int)
    requires Parsed(e)
    ensures var u := PrevTime(e.seconds, 60, Second, Minute, t, []);
      u <= t && Sec(u) in e.seconds && (forall x | u < x <= t :: Sec(x) !in e.seconds) && (Sec(t) in e.seconds <==> u == t)
  {
    hide SetTo, AddTo, ResetAllMax, Sec, Highest;
    var w, x := LastIn(e.seconds, Sec(t), 0), LastIn(e.seconds, 59, Sec(t));
    var y := Member(e.seconds, 0, 59);
    SecondParts(t);
    SecondSet(t, if w != -1 then w else 0);
    SecondUnder(t, if x != -1 then x else 0);
    NoResetsMax(SetTo(Second, t, w));
    NoResetsMax((t / 60 - 1) * 60 + x);
    var u := (if w != -1 then t / 60 else t / 60 - 1) * 60 + (if w != -1 then w else x);
    assert PrevTime(e.seconds, 60, Second, Minute, t, []) == u;
    SecondOf(if w != -1 then t / 60 else t / 60 - 1, if w != -1 then w else x);
    forall v | u < v <= t ensures Sec(v) !in e.seconds {
      SecondParts(v);
    }
  }

  lemma MinuteStepBack(e: Expr, t: int, sec: bool)
    requires Parsed(e) && Min(t) !in e.minutes
    ensures var u := PrevTime(e.minutes, 60, Minute, Hours, t, Lower(sec, 0));
      && u / 60 < t / 60 && Sec(u) == Keep59(sec, t) && (forall j | u / 60 < j <= t / 60 :: j % 60 !in e.minutes)
  {
    hide SetTo, AddTo, ResetAllMax, Min, Sec, Highest;
    var w, x := LastIn(e.minutes, Min(t), 0), LastIn(e.minutes, 59, Min(t));
    var y := Member(e.minutes, 0, 59);
    MinuteSet(t, if w != -1 then w else 0);
    MinuteUnder(t, if x != -1 then x else 0);
    TimeParts(t);
    var j := t / 3600 * 60 + (if w != -1 then w else x - 60);
    ResetSecondMax(sec, j * 60 + t % 60);
    SecondOf(j, t % 60);
    SecondOf(j, Keep59(sec, t));
    SecondOf(t / 60, t % 60);
    PassedMinutesBack(e, t, w, x, j);
  }

  lemma PassedMinutesBack(e: Expr, t: int, w: int, x: int, j: int)
    requires w == LastIn(e.minutes, Min(t), 0) && x == LastIn(e.minutes, 59, Min(t)) && Min(t) !in e.minutes && (w == -1 ==> x != -1)
    requires j == t / 60 - Min(t) + (if w != -1 then w else x - 60)
    ensures j < t / 60 && forall i | j < i <= t / 60 :: i % 60 !in e.minutes
  {
    forall i | j < i <= t / 60 ensures i % 60 !in e.minutes {
      var h, m := t / 60 / 60, Min(t);
      assert t / 60 == 60 * h + m;
      if i >= 60 * h {
        FloorIs(i, 60, h, i - 60 * h);
      } else {
        FloorIs(i, 60, h - 1, i - 60 * h + 60);
      }
    }
  }

  lemma HourStepBack(e: Expr, t: int, sec: bool)
    requires Parsed(e) && Hour(t) !in e.hours
    ensures var u := PrevTime(e.hours, 24, Hours, DayOfWeek, t, Lower(sec, 1));
      && u / 3600 < t / 3600 && u % 3600 == 3540 + Keep59(sec, t) && (forall h | u / 3600 < h <= t / 3600 :: h % 24 !in e.hours)
  {
    hide SetTo, AddTo, ResetAllMax, Hour, Day, Min, Sec, Highest;
    var w, x := LastIn(e.hours, Hour(t), 0), LastIn(e.hours, 23, Hour(t));
    var y := Member(e.hours, 0, 23);
    HourSet(t, if w != -1 then w else 0);
    HourUnder(t, if x != -1 then x else 0);
    DayParts(t);
    var h := Day(t) * 24 + (if w != -1 then w else x - 24);
    ResetMinuteMax(sec, h * 3600 + t % 3600);
    HourParts(h, t % 3600);
    HourParts(h, 3540 + Keep59(sec, t));
    HourParts(t / 3600, t % 3600);
    TimeParts(t);
    PassedHoursBack(e, t, w, x, h);
  }

  lemma PassedHoursBack(e: Expr, t: int, w: int, x: int, j: int)
    requires w == LastIn(e.hours, Hour(t), 0) && x == LastIn(e.hours, 23, Hour(t)) && Hour(t) !in e.hours && (w == -1 ==> x != -1)
    requires j == t / 3600 - Hour(t) + (if w != -1 then w else x - 24)
    ensures j < t / 3600 && forall i | j < i <= t / 3600 :: i % 24 !in e.hours
  {
    forall i | j < i <= t / 3600 ensures i % 24 !in e.hours {
      DayParts(t);
      hide Hour, Day;
      var d := Day(t);
      if i >= 24 * d {
        FloorIs(i, 24, d, i - 24 * d);
      } else {
        FloorIs(i, 24, d - 1, i - 24 * d + 24);
      }
    }
  }

  /** The month that a search back for one moves to. */
  function PrevMonthOf(e: Expr, k: int): int {
    var w := LastIn(e.months, k % 12, 0);
    if w != -1 then k - k % 12 + w else k - k % 12 - 12 + LastIn(e.months, 11, k % 12)
  }

  /** The end of the month found, or of the one after it if the day of the month does not fit. */
  lemma MonthStepBack(e: Expr, t: int, sec: bool) returns (k: int)
    requires Parsed(e) && !MonthOk(e, Day(t))
    ensures PrevTime(e.months, 12, Month, Years, t, Lower(sec, 3)) == MonthFirst(k + 1) * DAY - 60 + Keep59(sec, t)
    ensures var p := PrevMonthOf(e, MonthOf(Day(t))); k == p || (k == p + 1 && Mday(Day(t)) > MonthLength(p))
    ensures var p := PrevMonthOf(e, MonthOf(Day(t))); p / 12 == MonthOf(Day(t)) / 12 && Mday(Day(t)) > MonthLength(p) ==> k == p + 1
  {
    hide MonthFirst, MonthOf, MonthLength, Mday, ResetAllMax, MoveMonths, Day, Sec;
    var j := MonthOf(Day(t));
    var w, x := LastIn(e.months, Mon(Day(t)), 0), LastIn(e.months, 11, Mon(Day(t)));
    var y := Member(e.months, 0, 11);
    var u;
    if w != -1 {
      u := MoveMonths(t, w - j % 12);
      Moved(t, w - j % 12);
      SetMonth(t, w);
    } else {
      u := MonthUnder(t, x);
      FloorIs(j - j % 12 - 12 + x, 12, j / 12 - 1, x);
    }
    ResetDayMax(sec, u);
    k := MonthOf(Day(u));
  }

  /** Rolling under to month x of the year before, by way of December. */
  lemma MonthUnder(t: int, x: int) returns (u: int)
    requires 0 <= x < 12
    ensures var a := AddTo(Years, t, -1); u == SetTo(Month, SetTo(Month, a, Highest(Month, a)), x) && Sec(u) == Sec(t)
    ensures var j := MonthOf(Day(t)); var p := j - j % 12 - 12 + x; MonthOf(Day(u)) == p || (MonthOf(Day(u)) == p + 1 && Mday(Day(t)) > MonthLength(p))
  {
    hide MonthFirst, MonthOf, MonthLength, Mday, MoveMonths, Day, Sec;
    var j := MonthOf(Day(t));
    var a := MoveMonths(t, -12);
    Moved(t, -12);
    MdayRange(Day(t));
    PreviousYear(t, a);
    var i := MonthOf(Day(a));
    var b := MoveMonths(a, 11 - i % 12);
    Moved(a, 11 - i % 12);
    MdayRange(Day(a));
    December(i - i % 12 + 11);
    u := MoveMonths(b, x - 11);
    FloorIs(i - i % 12 + 11, 12, i / 12, 11);
    Moved(b, x - 11);
    MonthLengths(j - 12);
    YearBack(t);
    SetMonth(a, 11);
    SetMonth(b, x);
  }

  lemma December(k: int)
    requires k % 12 == 11
    ensures MonthLength(k) == 31
  {}

  /** A year earlier is in the year before, even from February 29. */
  lemma PreviousYear(t: int, a: int)
    requires a == MoveMonths(t, -12)
    ensures MonthOf(Day(a)) / 12 == MonthOf(Day(t)) / 12 - 1
  {
    hide MonthFirst, MonthOf, Mday, Day, MoveMonths;
    var j := MonthOf(Day(t));
    Moved(t, -12);
    MdayRange(Day(t));
    FloorIs(j - 12, 12, j / 12 - 1, j % 12);
    if j % 12 == 11 {
      December(j - 12);
    } else {
      FloorIs(j - 11, 12, j / 12 - 1, j % 12 + 1);
    }
  }

  lemma SetMonth(t: int, v: int)
    ensures SetTo(Month, t, v) == MoveMonths(t, v - MonthOf(Day(t)) % 12) && Highest(Month, t) == 11
  {
    hide MonthFirst, MonthOf, MoveMonths, Day;
  }

  lemma YearBack(t: int)
    ensures AddTo(Years, t, -1) == MoveMonths(t, -12)
  {
    hide MonthFirst, MonthOf, MoveMonths, Day;
  }

  // ---- What is passed by ----------------------------------------------------------------

  lemma MinutesPassedBack(e: Expr, t: int, u: int)
    requires forall j | u / 60 < j <= t / 60 :: j % 60 !in e.minutes
    ensures NoneDue(e, u / 60 + 1, t / 60 + 1)
  {}

  lemma HoursPassedBack(e: Expr, t: int, u: int)
    requires u % 3600 >= 3540 && forall h | u / 3600 < h <= t / 3600 :: h % 24 !in e.hours
    ensures NoneDue(e, u / 60 + 1, t / 60 + 1)
  {
    TimeParts(t);
    TimeParts(u);
    forall j | u / 60 + 1 <= j < t / 60 + 1 ensures !Due(e, j) {
      var h := j / 60;
      assert h % 24 !in e.hours;
    }
  }

  lemma DaysPassedBack(e: Expr, t: int, u: int)
    requires u % DAY >= 86340 && forall d | Day(u) < d <= Day(t) :: !DayOk(e, d)
    ensures NoneDue(e, u / 60 + 1, t / 60 + 1)
  {
    hide DayOk;
    forall j | u / 60 + 1 <= j < t / 60 + 1 ensures !Due(e, j) {
      var d := j / 1440;
      assert Day(u) < d <= Day(t);
    }
  }

  lemma MonthsPassedBack(e: Expr, t: int, u: int)
    requires u % DAY >= 86340 && (forall k | MonthOf(Day(u)) < k <= MonthOf(Day(t)) :: k % 12 !in e.months)
    requires Day(u) + 1 == MonthFirst(MonthOf(Day(u)) + 1)
    ensures NoneFires(e, u / 60 + 1, t / 60 + 1)
  {
    hide Due, MonthOf, MonthFirst;
    forall j | u / 60 + 1 <= j < t / 60 + 1 ensures !FiresIn(e, j) {
      var d := j / 1440;
      assert Day(u) < d <= Day(t);
      MonthMonotone(d, Day(t));
      AfterMonth(d, MonthOf(Day(u)));
    }
  }

  lemma AfterMonth(day: int, k: int)
    requires day >= MonthFirst(k + 1)
    ensures MonthOf(day) > k
  {
    hide MonthFirst, MonthOf;
    if MonthOf(day) <= k {
      MonthsGrow(MonthOf(day) + 1, k + 1);
    }
  }

  lemma MonthsSkippedBack(e: Expr, k: int)
    requires Parsed(e) && k % 12 !in e.months
    ensures k - 24 < PrevMonthOf(e, k) < k && forall i | PrevMonthOf(e, k) < i <= k :: i % 12 !in e.months
  {
    var y := Member(e.months, 0, 11);
    forall i | PrevMonthOf(e, k) < i <= k ensures i % 12 !in e.months {
      var j := k - k % 12;
      if i >= j {
        FloorIs(i, 12, j / 12, i - j);
      } else {
        FloorIs(i, 12, j / 12 - 1, i - j + 12);
      }
    }
  }
}
