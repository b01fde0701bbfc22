/** One step of the search for the next match: where it goes, and that it passes no match by. */
module CronForward {
  import opened Calendar
  import opened CronTime
  import opened CronExpr

  /** The first element of a set in a range, or -1. */
  function FirstIn(s: set<int>, from: int, max: int): (r: int)
    requires from >= 0
    ensures r == -1 ==> forall x | from <= x < max :: x !in s
    ensures r != -1 ==> r in s && from <= r < max && forall x | from <= x < r :: x !in s
    decreases max - from
  {
    if from >= max then -1 else if from in s then from else FirstIn(s, from + 1, max)
  }

  /** Where find_next moves the time. */
  function NextTime(s: set<int>, max: int, f: Field, nf: Field, t: int, lower: seq<Field>): int
    requires f != Years && f != DayOfMonth
  {
    hide SetTo, AddTo, Lowest, Value;
    var v := Value(f, t);
    var w := FirstIn(s, v, max);
    if w == v then t
    else if w != -1 then ResetAllMin(SetTo(f, t, w), lower)
    else
      var x := FirstIn(s, 0, max);
      ResetAllMin(SetTo(f, SetTo(f, AddTo(nf, t, 1), Lowest(f)), if x == -1 then 0 else x), lower)
  }

  /** The fields that are reset with a higher one: the seconds only if they matched at once. */
  function Lower(sec: bool, n: nat): seq<Field>
    requires n <= 3
  {
    (if sec then [Second] else []) + [Minute, Hours, DayOfMonth][..n]
  }

  function Keep(sec: bool, t: int): int {
    if sec then 0 else Sec(t)
  }

  // ---- Resets -------------------------------------------------------------------------------

  lemma ResetSecond(sec: bool, t: int)
    ensures ResetAllMin(t, Lower(sec, 0)) == t / 60 * 60 + Keep(sec, t)
  {
    if sec {
      assert Lower(sec, 0) == [Second];
      assert ResetAllMin(t, [Second]) == ResetAllMin(SetTo(Second, t, 0), []);
    } else {
      assert Lower(sec, 0) == [];
    }
  }

  lemma {:induction false} ResetAppend(t: int, a: seq<Field>, f: Field)
    ensures ResetAllMin(t, a + [f]) == SetTo(f, ResetAllMin(t, a), Lowest(f))
    decreases |a|
  {
    hide SetTo;
    if a == [] {
      assert a + [f] == [f] && [f][1..] == [];
      assert ResetAllMin(SetTo(f, t, Lowest(f)), []) == SetTo(f, t, Lowest(f));
    } else {
      assert (a + [f])[0] == a[0] && (a + [f])[1..] == a[1..] + [f];
      ResetAppend(SetTo(a[0], t, Lowest(a[0])), a[1..], f);
    }
  }

  lemma ResetMinute(sec: bool, t: int)
    ensures ResetAllMin(t, Lower(sec, 1)) == t / 3600 * 3600 + Keep(sec, t)
  {
    hide ResetAllMin;
    assert Lower(sec, 1) == Lower(sec, 0) + [Minute];
    ResetAppend(t, Lower(sec, 0), Minute);
    ResetSecond(sec, t);
    ZeroMinute(t / 60 * 60 + Keep(sec, t));
  }

  lemma ZeroMinute(t: int)
    ensures SetTo(Minute, t, 0) == t / 3600 * 3600 + Sec(t)
  {}

  lemma ZeroHour(t: int)
    ensures SetTo(Hours, t, 0) == t / DAY * DAY + t % 3600
  {}

  lemma ResetHour(sec: bool, t: int)
    ensures ResetAllMin(t, Lower(sec, 2)) == Day(t) * DAY + Keep(sec, t)
  {
    hide ResetAllMin;
    assert Lower(sec, 2) == Lower(sec, 1) + [Hours];
    ResetAppend(t, Lower(sec, 1), Hours);
    ResetMinute(sec, t);
    ZeroHour(t / 3600 * 3600 + Keep(sec, t));
    HourParts(t / 3600, Keep(sec, t));
    hide SetTo;
  }

  lemma HourParts(h: int, r: int)
    requires 0 <= r < 3600
    ensures (h * 3600 + r) / 3600 == h && (h * 3600 + r) % 3600 == r && Sec(h * 3600 + r) == Sec(r) && (h * 3600 + r) / DAY == h / 24
  {
    FloorIs(h * 3600 + r, 3600, h, r);
    FloorIs(h * 3600 + r, DAY, h / 24, h % 24 * 3600 + r);
    FloorIs(h * 3600 + r, 60, h * 60 + r / 60, r % 60);
  }

  lemma ResetDay(sec: bool, t: int)
    ensures ResetAllMin(t, Lower(sec, 3)) == MonthFirst(MonthOf(Day(t))) * DAY + Keep(sec, t)
  {
    hide ResetAllMin, MonthFirst, MonthOf;
    assert Lower(sec, 3) == Lower(sec, 2) + [DayOfMonth];
    ResetAppend(t, Lower(sec, 2), DayOfMonth);
    ResetHour(sec, t);
    FirstOfMonth(Day(t), Keep(sec, t));
  }

  lemma FirstOfMonth(day: int, s: int)
    requires 0 <= s < DAY
    ensures SetTo(DayOfMonth, day * DAY + s, 1) == MonthFirst(MonthOf(day)) * DAY + s
  {
    hide MonthFirst, MonthOf;
    assert Day(day * DAY + s) == day;
  }

  // ---- Closed forms ---------------------------------------------------------------------

  /** Setting a field, and rolling over to its first match. */
  lemma SecondSet(t: int, v: int)
    requires 0 <= v < 60
    ensures SetTo(Second, t, v) == t / 60 * 60 + v
    ensures SetTo(Second, SetTo(Second, AddTo(Minute, t, 1), 0), v) == (t / 60 + 1) * 60 + v
  {
    var j := t / 60;
    SecondParts(t);
    SecondSets(t, v);
    SecondOf(j + 1, Sec(t));
    SecondOf(j + 1, 0);
    SecondSets(t + 60, 0);
    SecondSets((j + 1) * 60, v);
    hide Sec;
    assert AddTo(Minute, t, 1) == t + 60 == (j + 1) * 60 + Sec(t);
  }

  lemma SecondSets(t: int, v: int)
    ensures SetTo(Second, t, v) == t - Sec(t) + v
  {}

  lemma MinuteSet(t: int, v: int)
    requires 0 <= v < 60
    ensures SetTo(Minute, t, v) == (t / 3600 * 60 + v) * 60 + t % 60
    ensures SetTo(Minute, SetTo(Minute, AddTo(Hours, t, 1), 0), v) == ((t / 3600 + 1) * 60 + v) * 60 + t % 60
  {
    var h, m, s := t / 3600, Min(t), t % 60;
    TimeParts(t);
    TimeOf(h + 1, m, s);
    TimeOf(h + 1, 0, s);
    hide Min;
    assert AddTo(Hours, t, 1) == (h + 1) * 3600 + m * 60 + s;
    assert SetTo(Minute, AddTo(Hours, t, 1), 0) == (h + 1) * 3600 + s;
  }

  lemma TimeOf(h: int, m: int, s: int)
    requires 0 <= m < 60 && 0 <= s < 60
    ensures Min(h * 3600 + m * 60 + s) == m
  {
    assert (h * 3600 + m * 60 + s) / 60 == h * 60 + m;
  }

  lemma TimeParts(t: int)
    ensures t == t / 3600 * 3600 + Min(t) * 60 + t % 60 && 0 <= Min(t) < 60 && t % 3600 == Min(t) * 60 + t % 60
    ensures t / 3600 == t / 60 / 60
  {}

  lemma HourSet(t: int, v: int)
    requires 0 <= v < 24
    ensures SetTo(Hours, t, v) == (Day(t) * 24 + v) * 3600 + t % 3600
    ensures SetTo(Hours, SetTo(Hours, AddTo(DayOfWeek, t, 1), 0), v) == ((Day(t) + 1) * 24 + v) * 3600 + t % 3600
  {
    var d, h, r := Day(t), Hour(t), t % 3600;
    DayParts(t);
    HourOf(d + 1, h, r);
    HourOf(d + 1, 0, r);
    hide Hour, Day;
    assert AddTo(DayOfWeek, t, 1) == (d + 1) * DAY + h * 3600 + r;
    assert SetTo(Hours, AddTo(DayOfWeek, t, 1), 0) == (d + 1) * DAY + r;
  }

  lemma HourOf(d: int, h: int, r: int)
    requires 0 <= h < 24 && 0 <= r < 3600
    ensures Hour(d * DAY + h * 3600 + r) == h
  {
    assert (d * DAY + h * 3600 + r) / 3600 == d * 24 + h;
  }

  lemma DayParts(t: int)
    ensures t == Day(t) * DAY + Hour(t) * 3600 + t % 3600 && 0 <= Hour(t) < 24 && t / 3600 == Day(t) * 24 + Hour(t)
  {}

  /** The seconds move to the next match; if there is none left, into the next minute. */
  lemma SecondStep(e: Expr, t: int)
    requires Parsed(e)
    ensures var u := NextTime(e.seconds, 60, Second, Minute, t, []);
      t <= u && Sec(u) in e.seconds && (forall x | t <= x < u :: Sec(x) !in e.seconds) && (Sec(t) in e.seconds <==> u == t)
  {
    hide SetTo, AddTo, ResetAllMin, Sec;
    var w, x := FirstIn(e.seconds, Sec(t), 60), FirstIn(e.seconds, 0, 60);
    var y := Member(e.seconds, 0, 59);
    SecondParts(t);
    SecondSet(t, if w != -1 then w else x);
    NoResets(SetTo(Second, t, w));
    NoResets(SetTo(Second, SetTo(Second, AddTo(Minute, t, 1), 0), x));
    var j := if w != -1 then t / 60 else t / 60 + 1;
    var v := if w != -1 then w else x;
    assert NextTime(e.seconds, 60, Second, Minute, t, []) == j * 60 + v;
    SecondOf(j, v);
    PassedSeconds(e, t, w, x, j * 60 + v);
  }

  lemma PassedSeconds(e: Expr, t: int, w: int, x: int, u: int)
    requires w == FirstIn(e.seconds, Sec(t), 60) && x == FirstIn(e.seconds, 0, 60) && (w == -1 ==> x != -1)
    requires u == t - Sec(t) + (if w != -1 then w else 60 + x)
    ensures t <= u && (forall y | t <= y < u :: Sec(y) !in e.seconds) && (Sec(t) in e.seconds <==> u == t)
  {
    hide Sec;
    SecondParts(t);
    forall y | t <= y < u ensures Sec(y) !in e.seconds {
      var j := t / 60;
      if y < j * 60 + 60 {
        SecondOf(j, y - j * 60);
      } else {
        SecondOf(j + 1, y - j * 60 - 60);
      }
    }
  }

  lemma SecondParts(t: int)
    ensures t == t / 60 * 60 + Sec(t)
  {}

  lemma SecondOf(j: int, v: int)
    requires 0 <= v < 60
    ensures Sec(j * 60 + v) == v && (j * 60 + v) / 60 == j
  {}

  lemma NoResets(t: int)
    ensures ResetAllMin(t, []) == t
  {}

  /** Minutes on the way to the next matching one. */
  lemma MinuteStep(e: Expr, t: int, sec: bool)
    requires Parsed(e) && Min(t) !in e.minutes
    ensures var u := NextTime(e.minutes, 60, Minute, Hours, t, Lower(sec, 0));
      && t / 60 < u / 60 && Sec(u) == Keep(sec, t) && (forall j | t / 60 <= j < u / 60 :: j % 60 !in e.minutes)
  {
    hide SetTo, AddTo, ResetAllMin, Min, Sec;
    var w, x := FirstIn(e.minutes, Min(t), 60), FirstIn(e.minutes, 0, 60);
    var y := Member(e.minutes, 0, 59);
    MinuteSet(t, if w != -1 then w else x);
    TimeParts(t);
    var j := t / 3600 * 60 + (if w != -1 then w else 60 + x);
    ResetSecond(sec, j * 60 + t % 60);
    SecondOf(j, t % 60);
    SecondOf(j, Keep(sec, t));
    SecondOf(t / 60, t % 60);
    PassedMinutes(e, t, w, x, j);
  }

  lemma PassedMinutes(e: Expr, t: int, w: int, x: int, j: int)
    requires w == FirstIn(e.minutes, Min(t), 60) && x == FirstIn(e.minutes, 0, 60) && Min(t) !in e.minutes && x != -1
    requires j == t / 60 - Min(t) + (if w != -1 then w else 60 + x)
    ensures t / 60 < j && forall i | t / 60 <= i < j :: i % 60 !in e.minutes
  {
    forall i | t / 60 <= i < j ensures i % 60 !in e.minutes {
      var h, m := t / 60 / 60, Min(t);
      assert t / 60 == 60 * h + m;
      if i < 60 * h + 60 {
        assert i % 60 == i - 60 * h;
      } else {
        assert i % 60 == i - 60 * h - 60;
      }
    }
  }

  lemma HourStep(e: Expr, t: int, sec: bool)
    requires Parsed(e) && Hour(t) !in e.hours
    ensures var u := NextTime(e.hours, 24, Hours, DayOfWeek, t, Lower(sec, 1));
      && t / 3600 < u / 3600 && u % 3600 == Keep(sec, t) && (forall h | t / 3600 <= h < u / 3600 :: h % 24 !in e.hours)
  {
    hide SetTo, AddTo, ResetAllMin, Hour, Day, Min, Sec;
    var w, x := FirstIn(e.hours, Hour(t), 24), FirstIn(e.hours, 0, 24);
    var y := Member(e.hours, 0, 23);
    HourSet(t, if w != -1 then w else x);
    DayParts(t);
    var h := Day(t) * 24 + (if w != -1 then w else 24 + x);
    ResetMinute(sec, h * 3600 + t % 3600);
    HourParts(h, t % 3600);
    HourParts(h, Keep(sec, t));
    HourParts(t / 3600, t % 3600);
    TimeParts(t);
    PassedHours(e, t, w, x, h);
  }

  lemma PassedHours(e: Expr, t: int, w: int, x: int, j: int)
    requires w == FirstIn(e.hours, Hour(t), 24) && x == FirstIn(e.hours, 0, 24) && Hour(t) !in e.hours && x != -1
    requires j == t / 3600 - Hour(t) + (if w != -1 then w else 24 + x)
    ensures t / 3600 < j && forall i | t / 3600 <= i < j :: i % 24 !in e.hours
  {
    forall i | t / 3600 <= i < j ensures i % 24 !in e.hours {
      DayParts(t);
      hide Hour, Day;
      var d := Day(t);
      if i < 24 * d + 24 {
        assert i % 24 == i - 24 * d;
      } else {
        assert i % 24 == i - 24 * d - 24;
      }
    }
  }

  // ---- Months ---------------------------------------------------------------------------

  /** Moving the month may carry into the one after, unless the day of the month is small. */
  lemma Moved(t: int, n: int)
    ensures var k, u := MonthOf(Day(t)), MoveMonths(t, n);
      && Day(u) == MonthFirst(k + n) + Mday(Day(t)) - 1 && u % DAY == t % DAY && Sec(u) == Sec(t)
      && k + n <= MonthOf(Day(u)) <= k + n + 1
      && (Mday(Day(t)) <= MonthLength(k + n) ==> MonthOf(Day(u)) == k + n && Mday(Day(u)) == Mday(Day(t)))
      && (Mday(Day(t)) > MonthLength(k + n) ==> MonthOf(Day(u)) == k + n + 1 && Mday(Day(u)) == Mday(Day(t)) - MonthLength(k + n))
  {
    hide MonthFirst, MonthOf, MonthLength, Mday;
    var k := MonthOf(Day(t));
    var d := MonthFirst(k + n) - MonthFirst(k);
    ShiftDays(t, d);
    MdayRange(Day(t));
    MdayIs(Day(t));
    CarryAtMost(k + n, Mday(Day(t)));
  }

  lemma MdayIs(day: int)
    ensures Mday(day) == day - MonthFirst(MonthOf(day)) + 1
  {}

  lemma ShiftDays(t: int, d: int)
    ensures Day(t + d * DAY) == Day(t) + d && (t + d * DAY) % DAY == t % DAY && Sec(t + d * DAY) == Sec(t)
  {
    FloorIs(t + d * DAY, DAY, t / DAY + d, t % DAY);
    FloorIs(t + d * DAY, 60, t / 60 + d * 1440, t % 60);
  }

  lemma CarryAtMost(k: int, mday: int)
    requires 1 <= mday <= 31
    ensures k <= MonthOf(MonthFirst(k) + mday - 1) <= k + 1
    ensures mday <= MonthLength(k) ==> MonthOf(MonthFirst(k) + mday - 1) == k && Mday(MonthFirst(k) + mday - 1) == mday
    ensures mday > MonthLength(k) ==> MonthOf(MonthFirst(k) + mday - 1) == k + 1 && Mday(MonthFirst(k) + mday - 1) == mday - MonthLength(k)
  {
    hide MonthFirst, MonthOf, MonthLength, Mday;
    NextMonth(k);
    NextMonth(k + 1);
    MonthLengths(k);
    MonthLengths(k + 1);
    var day := MonthFirst(k) + mday - 1;
    MonthUnique(day, if mday <= MonthLength(k) then k else k + 1);
    MdayIs(day);
  }

  /** The month that a search for one moves to, if it does not carry over. */
  function NextMonthOf(e: Expr, k: int): int {
    var w := FirstIn(e.months, k % 12, 12);
    if w != -1 then k - k % 12 + w else k - k % 12 + 12 + FirstIn(e.months, 0, 12)
  }

  /** The month that the calendar comes to: the one found, or the one after if the day does not fit. */
  function Landing(e: Expr, day: int): int {
    var n := NextMonthOf(e, MonthOf(day));
    if Mday(day) <= MonthLength(n) then n else n + 1
  }

  /** The month moves, and then the lower fields are reset. */
  lemma MonthShift(e: Expr, t: int, lower: seq<Field>) returns (u: int)
    requires Parsed(e) && !MonthOk(e, Day(t))
    ensures NextTime(e.months, 12, Month, Years, t, lower) == ResetAllMin(u, lower)
    ensures MonthOf(Day(u)) == Landing(e, Day(t)) && u % DAY == t % DAY && Sec(u) == Sec(t)
  {
    hide MonthFirst, MonthOf, MonthLength, Mday, ResetAllMin;
    var j := MonthOf(Day(t));
    var w, x := FirstIn(e.months, Mon(Day(t)), 12), FirstIn(e.months, 0, 12);
    var y := Member(e.months, 0, 11);
    if w != -1 {
      Moved(t, w - j % 12);
      u := MoveMonths(t, w - j % 12);
      assert SetTo(Month, t, w) == u;
    } else {
      assert x < j % 12;
      u := MonthRolled(t, x);
    }
  }

  /** The first time in the month that the calendar comes to. */
  lemma MonthStep(e: Expr, t: int, sec: bool)
    requires Parsed(e) && !MonthOk(e, Day(t))
    ensures NextTime(e.months, 12, Month, Years, t, Lower(sec, 3)) == MonthFirst(Landing(e, Day(t))) * DAY + Keep(sec, t)
  {
    hide MonthFirst, MonthOf, Landing, ResetAllMin, NextTime;
    var u := MonthShift(e, t, Lower(sec, 3));
    ResetDay(sec, u);
  }

  /** Rolling over into the next year, by way of its January. */
  lemma MonthRolled(t: int, x: int) returns (u: int)
    requires 0 <= x < MonthOf(Day(t)) % 12
    ensures u == SetTo(Month, SetTo(Month, AddTo(Years, t, 1), 0), x) && Sec(u) == Sec(t) && u % DAY == t % DAY
    ensures var j := MonthOf(Day(t)); var k := j - j % 12 + 12 + x;
      MonthOf(Day(u)) == if Mday(Day(t)) <= MonthLength(k) then k else k + 1
  {
    hide MonthFirst, MonthOf, MonthLength, Mday, Day, Sec, MoveMonths;
    var j := MonthOf(Day(t));
    var a := MoveMonths(t, 12);
    Moved(t, 12);
    MdayRange(Day(t));
    SameYear(t, a);
    var i := MonthOf(Day(a));
    var b := MoveMonths(a, -(i % 12));
    Moved(a, -(i % 12));
    January(i - i % 12);
    MdayRange(Day(a));
    u := MoveMonths(b, x);
    Moved(b, x);
    Monthly(t, a, b, x);
    YearLater(j, Mday(Day(t)));
    if Mday(Day(t)) > MonthLength(j + 12) {
      assert x == 0;
    }
  }

  /** Only the end of a February is missing in the year after. */
  lemma YearLater(j: int, d: int)
    requires 1 <= d <= MonthLength(j)
    ensures d > MonthLength(j + 12) ==> j % 12 == 1 && d == 29
  {
    FloorIs(j + 12, 12, j / 12 + 1, j % 12);
  }

  lemma Monthly(t: int, a: int, b: int, x: int)
    requires a == MoveMonths(t, 12) && b == MoveMonths(a, -(MonthOf(Day(a)) % 12)) && MonthOf(Day(b)) % 12 == 0
    ensures SetTo(Month, SetTo(Month, AddTo(Years, t, 1), 0), x) == MoveMonths(b, x)
  {
    hide MonthFirst, MonthOf, Day, MoveMonths;
    assert AddTo(Years, t, 1) == a;
    assert SetTo(Month, a, 0) == b;
  }

  lemma January(k: int)
    requires k % 12 == 0
    ensures MonthLength(k) == 31
  {}

  /** A year later is in the year after, even on February 29. */
  lemma SameYear(t: int, a: int)
    requires a == MoveMonths(t, 12)
    ensures MonthOf(Day(a)) / 12 == MonthOf(Day(t)) / 12 + 1
  {
    hide MonthFirst, MonthOf, Mday, Day, MoveMonths;
    var j := MonthOf(Day(t));
    Moved(t, 12);
    MdayRange(Day(t));
    if j % 12 == 11 {
      assert (j + 12) % 12 == 11;
    }
  }

  // ---- What is passed by ----------------------------------------------------------------

  /** No minute of the range matches, but for the month. */
  ghost predicate NoneDue(e: Expr, a: int, b: int) {
    forall j | a <= j < b :: !Due(e, j)
  }

  /** The expression does not fire in any minute of the range. */
  ghost predicate NoneFires(e: Expr, a: int, b: int) {
    forall j | a <= j < b :: !FiresIn(e, j)
  }

  lemma MinutesPassed(e: Expr, t: int, u: int)
    requires forall j | t / 60 <= j < u / 60 :: j % 60 !in e.minutes
    ensures NoneDue(e, t / 60, u / 60)
  {}

  lemma HoursPassed(e: Expr, t: int, u: int)
    requires u % 3600 < 60 && forall h | t / 3600 <= h < u / 3600 :: h % 24 !in e.hours
    ensures NoneDue(e, t / 60, u / 60)
  {
    TimeParts(t);
    TimeParts(u);
    forall j | t / 60 <= j < u / 60 ensures !Due(e, j) {
      var h := j / 60;
      assert h % 24 !in e.hours;
    }
  }

  lemma DaysPassed(e: Expr, t: int, u: int)
    requires u % DAY < 60 && forall d | Day(t) <= d < Day(u) :: !DayOk(e, d)
    ensures NoneDue(e, t / 60, u / 60)
  {
    hide DayOk;
    forall j | t / 60 <= j < u / 60 ensures !Due(e, j) {
      var d := j / 1440;
      assert Day(t) <= d < Day(u);
    }
  }

  lemma BeforeMonth(day: int, k: int)
    requires day < MonthFirst(k)
    ensures MonthOf(day) < k
  {
    hide MonthFirst, MonthOf;
    if MonthOf(day) >= k {
      MonthsGrow(k, MonthOf(day));
    }
  }

  lemma MonthsSkipped(e: Expr, k: int)
    requires Parsed(e) && k % 12 !in e.months
    ensures k < NextMonthOf(e, k) && forall i | k <= i < NextMonthOf(e, k) :: i % 12 !in e.months
  {
    var y := Member(e.months, 0, 11);
    var w := FirstIn(e.months, k % 12, 12);
    forall i | k <= i < NextMonthOf(e, k) ensures i % 12 !in e.months {
      var j := k - k % 12;
      if i < j + 12 {
        FloorIs(i, 12, j / 12, i - j);
      } else {
        FloorIs(i, 12, j / 12 + 1, i - j - 12);
      }
    }
  }

  /** The start of the next matching day, or of the one after a year without any. */
  ghost predicate NextDayIs(e: Expr, t: int, u: int, sec: bool) {
    Day(t) < Day(u) && u == Day(u) * DAY + Keep(sec, t) && DaysOn(e, Day(t), Day(u) - Day(t))
  }

  /** If the month found does not have this day, it has no listed day. */
  predicate Clear(e: Expr, day: int) {
    var n := MonthLength(NextMonthOf(e, MonthOf(day)));
    Mday(day) > n ==> forall d <- e.daysOfMonth :: d > n
  }

  lemma LandingLater(e: Expr, day: int)
    requires Parsed(e) && !MonthOk(e, day)
    ensures MonthOf(day) < NextMonthOf(e, MonthOf(day)) <= Landing(e, day) <= NextMonthOf(e, MonthOf(day)) + 1 <= MonthOf(day) + 24
  {
    hide MonthFirst, MonthOf, MonthLength, Mday;
    var y := Member(e.months, 0, 11);
    MonthsSkipped(e, MonthOf(day));
  }

  /** A change of the month then passes no match by. */
  lemma MonthPassed(e: Expr, day: int, x: int)
    requires Parsed(e) && !MonthOk(e, day) && Clear(e, day) && day <= x < MonthFirst(Landing(e, day))
    ensures !(DayOk(e, x) && MonthOk(e, x))
  {
    hide MonthFirst, MonthOf, MonthLength, Mday;
    var n := NextMonthOf(e, MonthOf(day));
    LandingLater(e, day);
    MonthsSkipped(e, MonthOf(day));
    MonthMonotone(day, x);
    BeforeMonth(x, Landing(e, day));
    if MonthOf(x) == n {
      MdayRange(x);
    }
  }

  lemma MonthsPassed(e: Expr, t: int, u: int)
    requires Parsed(e) && !MonthOk(e, Day(t)) && Clear(e, Day(t)) && u % DAY < 60 && Day(u) == MonthFirst(Landing(e, Day(t)))
    ensures NoneFires(e, t / 60, u / 60)
  {
    hide MonthOf, MonthFirst, Landing, Clear, DayOk, MonthOk;
    forall j | t / 60 <= j < u / 60 ensures !FiresIn(e, j) {
      var d := j / 1440;
      assert Day(t) <= d < Day(u);
      MonthPassed(e, Day(t), d);
    }
  }

  /** Where the month may be set before the day. */
  lemma LandsClear(e: Expr, day: int)
    requires Parsed(e) && LandsRight(e) && DayOk(e, day) && !MonthOk(e, day)
    ensures Clear(e, day)
  {
    hide MonthFirst, MonthOf, Mday, Wday;
    var n := NextMonthOf(e, MonthOf(day));
    MdayRange(day);
    if Mday(day) > MonthLength(n) {
      LandingLater(e, day);
      MonthsSkipped(e, MonthOf(day));
      FoundListed(e, MonthOf(day));
      var k := n % 12;
      assert (n - 1) % 12 !in e.months;
      ShortMonth(n);
      assert AllOrNone(e, MonthLength(n));
    }
  }

  lemma FoundListed(e: Expr, k: int)
    requires Parsed(e) && k % 12 !in e.months
    ensures NextMonthOf(e, k) % 12 in e.months
  {
    var y := Member(e.months, 0, 11);
    var w := FirstIn(e.months, k % 12, 12);
    if w != -1 {
      FloorIs(k - k % 12 + w, 12, k / 12, w);
    } else {
      FloorIs(NextMonthOf(e, k), 12, k / 12 + 1, FirstIn(e.months, 0, 12));
    }
  }

  lemma ShortMonth(n: int)
    requires MonthLength(n) < 31
    ensures 1 <= n % 12 <= 11 && (n - 1) % 12 == n % 12 - 1
    ensures MonthLength(n) == CommonLength(n % 12) || (n % 12 == 1 && MonthLength(n) == 29)
  {
    FloorIs(n - 1, 12, n / 12, n % 12 - 1);
  }

  // ---- Seconds --------------------------------------------------------------------------

  /** The seconds of the time, once they are kept or reset, are not above the first that is listed. */
  predicate LowKeep(e: Expr, sec: bool, t: int) {
    forall s <- e.seconds :: Keep(sec, t) <= s
  }

  lemma KeepsLow(e: Expr, t0: int, t: int, sec: bool)
    requires Parsed(e) && NoGap(e.seconds) && (sec <==> Sec(t0) in e.seconds)
    requires t0 <= t && Sec(t) in e.seconds && (forall x | t0 <= x < t :: Sec(x) !in e.seconds)
    ensures LowKeep(e, sec, t)
  {
    hide Sec;
    if !sec {
      SecondParts(t0);
      SecondParts(t);
      forall s <- e.seconds ensures Sec(t) <= s {
        var x := t / 60 * 60 + s;
        SecondOf(t / 60, s);
        assert x < t ==> x < t0;
      }
    }
  }

  // ---- Steps from the first minute of a day -----------------------------------------------------

  /** Some of the lowest n + 1 fields, with the seconds if they matched at once. */
  predicate Below(lower: seq<Field>, sec: bool, n: nat)
    requires n <= 3
  {
    (Second in lower <==> sec) && forall f <- lower :: f in Lower(true, n)
  }

  lemma {:induction false} ResetMidnight(x: int, s: int, lower: seq<Field>)
    requires 0 <= s < 60 && forall f <- lower :: f in Lower(true, 3)
    ensures var y := if DayOfMonth in lower then MonthFirst(MonthOf(x)) else x;
      ResetAllMin(x * DAY + s, lower) == y * DAY + if Second in lower then 0 else s
    decreases |lower|
  {
    hide SetTo, MonthFirst, MonthOf;
    if lower != [] {
      var f := lower[0];
      MidnightSet(x, s, f);
      FirstOfFirst(x);
      var y := if f == DayOfMonth then MonthFirst(MonthOf(x)) else x;
      ResetMidnight(y, if f == Second then 0 else s, lower[1..]);
      assert lower == [f] + lower[1..];
    }
  }

  lemma MidnightSet(x: int, s: int, f: Field)
    requires 0 <= s < 60 && f in Lower(true, 3)
    ensures var y := if f == DayOfMonth then MonthFirst(MonthOf(x)) else x;
      SetTo(f, x * DAY + s, Lowest(f)) == y * DAY + if f == Second then 0 else s
  {
    hide SetTo, MonthFirst, MonthOf;
    var t := x * DAY + s;
    SecondOf(x * 1440, s);
    HourParts(x * 24, s);
    match f {
      case Second => SecondSet(t, 0);
      case Minute => ZeroMinute(t);
      case Hours => ZeroHour(t);
      case DayOfMonth => FirstOfMonth(x, s);
    }
  }

  lemma FirstOfFirst(x: int)
    ensures MonthOf(MonthFirst(MonthOf(x))) == MonthOf(x)
  {
    hide MonthFirst, MonthOf;
    NextMonth(MonthOf(x));
    MonthLengths(MonthOf(x));
    MonthUnique(MonthFirst(MonthOf(x)), MonthOf(x));
  }

  lemma {:induction false} ResetOnTheHour(h: int, s: int, lower: seq<Field>)
    requires 0 <= s < 60 && forall f <- lower :: f in Lower(true, 1)
    ensures ResetAllMin(h * 3600 + s, lower) == h * 3600 + if Second in lower then 0 else s
    decreases |lower|
  {
    hide SetTo, Lower;
    if lower != [] {
      var f := lower[0];
      OnTheHourSet(h, s, f);
      ResetOnTheHour(h, if f == Second then 0 else s, lower[1..]);
      assert lower == [f] + lower[1..];
    }
  }

  lemma OnTheHourSet(h: int, s: int, f: Field)
    requires 0 <= s < 60 && f in Lower(true, 1)
    ensures SetTo(f, h * 3600 + s, Lowest(f)) == h * 3600 + if f == Second then 0 else s
  {
    hide SetTo;
    var t := h * 3600 + s;
    SecondOf(h * 60, s);
    HourParts(h, s);
    assert Lower(true, 1) == [Second, Minute];
    if f == Second {
      SecondSet(t, 0);
    } else {
      ZeroMinute(t);
    }
  }

  /** The hours move within the day. */
  lemma HourMidnight(e: Expr, t: int, sec: bool, lower: seq<Field>)
    requires Parsed(e) && t % DAY < 60 && Hour(t) !in e.hours && Below(lower, sec, 1)
    ensures var u := NextTime(e.hours, 24, Hours, DayOfWeek, t, lower);
      && t / 3600 < u / 3600 && u % 3600 == Keep(sec, t) && (forall h | t / 3600 <= h < u / 3600 :: h % 24 !in e.hours)
  {
    hide SetTo, AddTo, ResetAllMin, Hour, Day, Min, Sec;
    var w := FirstIn(e.hours, 0, 24);
    var y := Member(e.hours, 0, 23);
    DayParts(t);
    var x, s := Day(t), t % DAY;
    MidnightIs(t);
    HourSet(t, w);
    var h := x * 24 + w;
    ResetOnTheHour(h, s, lower);
    HourParts(h, Keep(sec, t));
    PassedHours(e, t, w, w, h);
  }

  lemma MidnightIs(t: int)
    requires t % DAY < 60
    ensures Sec(t) == t % DAY == t % 3600 && Hour(t) == 0 && Min(t) == 0 && t == Day(t) * DAY + Sec(t) && t / 3600 == Day(t) * 24
  {
    var x, s := t / DAY, t % DAY;
    FloorIs(t, 3600, x * 24, s);
    FloorIs(t, 60, x * 1440, s);
    FloorIs(x * 24, 24, x, 0);
    FloorIs(x * 1440, 60, x * 24, 0);
  }

  lemma MonthMidnight(e: Expr, t: int, sec: bool, lower: seq<Field>)
    requires Parsed(e) && t % DAY < 60 && !MonthOk(e, Day(t)) && Below(lower, sec, 3) && DayOfMonth in lower
    ensures NextTime(e.months, 12, Month, Years, t, lower) == MonthFirst(Landing(e, Day(t))) * DAY + Keep(sec, t)
  {
    hide MonthFirst, MonthOf, Landing, ResetAllMin, NextTime, Day, Sec;
    var u := MonthShift(e, t, lower);
    MidnightIs(t);
    MidnightIs(u);
    ResetMidnight(Day(u), Sec(u), lower);
  }

  // ---- Any day of the week falls on any number ------------------------------------------------

  /** In two common years in a row, each day of the week falls on each number, in a month with 31 days. */
  lemma FallsOn(y: int, d: int, v: int) returns (x: int)
    requires !IsLeap(y) && !IsLeap(y + 1) && 1 <= d <= 31 && 0 <= v <= 6
    ensures Mday(x) == d && Wday(x) == v && y <= Year(x) <= y + 1
  {
    hide MonthFirst, MonthOf, Mday, Wday, MonthLength, IsLeap, YearFirst;
    var r := (v - 4 - (d - 1) - YearFirst(y)) % 7;
    var m := [0, 4, 7, 2, 2, 11, 6][r];
    var z := if r == 4 then y + 1 else y;
    CommonYearLength(y);
    CommonFirst(z, m);
    Months31(z, m);
    x := MonthFirst(12 * z + m) + d - 1;
    CarryAtMost(12 * z + m, d);
    FloorIs(12 * z + m, 12, z, m);
    WeekdayOf(x, YearFirst(y), m, d, v, r);
  }

  lemma CommonYearLength(y: int)
    requires !IsLeap(y)
    ensures YearFirst(y + 1) == YearFirst(y) + 365
  {
    YearLength(y);
  }

  lemma Months31(y: int, m: int)
    requires m == 0 || m == 2 || m == 4 || m == 6 || m == 7 || m == 11
    ensures MonthLength(12 * y + m) == 31
  {
    FloorIs(12 * y + m, 12, y, m);
  }

  lemma WeekdayOf(x: int, first: int, m: int, d: int, v: int, r: int)
    requires 0 <= v <= 6 && 0 <= m <= 11 && r == (v - 4 - (d - 1) - first) % 7 && m == [0, 4, 7, 2, 2, 11, 6][r]
    requires x == first + (if r == 4 then 365 else 0) + DaysBefore(m) + d - 1
    ensures Wday(x) == v
  {
    var q := (v - 4 - (d - 1) - first) / 7;
    var p := [0, 17, 30, 8, 60, 47, 25][r];
    assert x + 4 == 7 * (p - q) + v;
    FloorIs(x + 4, 7, p - q, v);
  }

  /** A matching day within four years, whatever is listed. */
  lemma DayWithin(e: Expr, day: int) returns (x: int)
    requires Parsed(e)
    ensures day < x && DayOk(e, x) && Year(x) <= Year(day) + 4
  {
    hide MonthFirst, MonthOf, Mday, Wday, IsLeap;
    var d := Member(e.daysOfMonth, 1, 31);
    var v := Member(e.daysOfWeek, 0, 6);
    var y := CommonYears(Year(day) + 1);
    x := FallsOn(y, d, v);
    if x <= day {
      MonthMonotone(x, day);
    }
  }

  lemma CommonYears(y: int) returns (z: int)
    ensures y <= z <= y + 2 && !IsLeap(z) && !IsLeap(z + 1)
  {
    z := if IsLeap(y) then y + 1 else if IsLeap(y + 1) then y + 2 else y;
  }

  // ---- Both day fields restricted ---------------------------------------------------------

  /** The next matching day is found, and has another number, from Monday to Friday in the first half of a month. */
  lemma WeekdaysFound(e: Expr)
    requires (forall d :: d in e.daysOfMonth <==> 1 <= d <= 15) && forall w :: w in e.daysOfWeek <==> 1 <= w <= 5
    ensures DaysFound(e)
  {
    hide Mday, Wday, MonthOf, MonthFirst, DayOk;
    forall d, n | !DayOk(e, d) && DaysOn(e, d, n) ensures DayOk(e, d + n) && Mday(d + n) != Mday(d) {
      MdayRange(d);
      if Mday(d) <= 13 {
        SoonMonday(e, d);
        DaysApart(d, d + n);
      } else {
        var x := SoonInMonth(e, d);
        AnotherNumber(d, d + n, x);
      }
    }
  }

  lemma SoonMonday(e: Expr, d: int)
    requires (forall x :: x in e.daysOfMonth <==> 1 <= x <= 15) && forall w :: w in e.daysOfWeek <==> 1 <= w <= 5
    requires !DayOk(e, d) && Mday(d) <= 13
    ensures DayOk(e, d + 1) || DayOk(e, d + 2)
  {
    hide Mday, MonthOf, MonthFirst;
    MdayRange(d);
    MdayIs(d);
    MonthLengths(MonthOf(d));
    CarryAtMost(MonthOf(d), Mday(d) + 1);
    CarryAtMost(MonthOf(d), Mday(d) + 2);
  }

  /** A matching day among the first three of the next month. */
  lemma SoonInMonth(e: Expr, d: int) returns (x: int)
    requires (forall y :: y in e.daysOfMonth <==> 1 <= y <= 15) && forall w :: w in e.daysOfWeek <==> 1 <= w <= 5
    ensures var f := MonthFirst(MonthOf(d) + 1); f <= x <= f + 2 && d < x <= d + 33 && DayOk(e, x)
  {
    hide Mday, MonthOf, MonthFirst;
    var k := MonthOf(d) + 1;
    var f := MonthFirst(k);
    x := if Wday(f) == 0 then f + 1 else if Wday(f) == 6 then f + 2 else f;
    NextMonth(k - 1);
    MonthLengths(k - 1);
    MonthLengths(k);
    CarryAtMost(k, x - f + 1);
  }

  lemma AnotherNumber(d: int, b: int, x: int)
    requires Mday(d) >= 14 && d < b <= x && MonthFirst(MonthOf(d) + 1) <= x <= MonthFirst(MonthOf(d) + 1) + 2
    ensures Mday(b) != Mday(d)
  {
    hide Mday, MonthOf, MonthFirst;
    var k := MonthOf(d) + 1;
    MdayIs(d);
    NextMonth(k - 1);
    MonthLengths(k - 1);
    MonthLengths(k);
    if b < MonthFirst(k) {
      DaysApart(d, b);
    } else {
      CarryAtMost(k, b - MonthFirst(k) + 1);
    }
  }
}
