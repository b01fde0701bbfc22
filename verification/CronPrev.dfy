/** The search for the previous time at which a cron expression fires. */
module CronPrev {
  import opened Calendar
  import opened CronTime
  import opened CronExpr
  import opened CronForward
  import opened CronBackward
  import opened CronGoals
  import opened CronSearch

  const CRON_MAX_YEARS_DIFF: int := 4

  // ---- Nested calls -----------------------------------------------------------------------

  /** The end of the previous matching day. */
  ghost predicate PrevDayIs(e: Expr, t: int, u: int, sec: bool) {
    && Day(u) < Day(t) && u == Day(u) * DAY + 86340 + Keep59(sec, t) && DayOk(e, Day(u))
    && forall d | Day(u) < d <= Day(t) :: !DayOk(e, d)
  }

  /** do_prev, called at time t, first calls itself at time u: at the first field that moves, unless
      that is the month and the year is too early by then. */
  ghost predicate NextCall(e: Expr, t: int, dot: int, u: int) {
    var s, sec := PrevTime(e.seconds, 60, Second, Minute, t, []), Sec(t) in e.seconds;
    if Min(s) !in e.minutes then u == PrevTime(e.minutes, 60, Minute, Hours, s, Lower(sec, 0))
    else if Hour(s) !in e.hours then u == PrevTime(e.hours, 24, Hours, DayOfWeek, s, Lower(sec, 1))
    else if !DayOk(e, Day(s)) then PrevDayIs(e, s, u, sec)
    else if !MonthOk(e, Day(s)) then u == PrevTime(e.months, 12, Month, Years, s, Lower(sec, 3)) && !TooEarly(u, dot)
    else false
  }

  predicate TooEarly(u: int, dot: int) {
    (dot - (Year(Day(u)) - 1900)) % 0x1_0000_0000 > CRON_MAX_YEARS_DIFF
  }

  lemma OneCallBack(e: Expr, t: int, dot: int, u: int, v: int)
    requires NextCall(e, t, dot, u) && NextCall(e, t, dot, v)
    ensures u == v
  {
    hide PrevTime, DayOk, MonthOk, Min, Hour, Sec, TooEarly;
    var s, sec := PrevTime(e.seconds, 60, Second, Minute, t, []), Sec(t) in e.seconds;
    if Min(s) in e.minutes && Hour(s) in e.hours && !DayOk(e, Day(s)) {
      assert Day(u) == Day(v);
    }
  }

  /** The times of nested calls. */
  ghost predicate Nested(e: Expr, dot: int, calls: seq<int>) {
    forall i | 0 < i < |calls| :: CalledAt(e, dot, calls, i)
  }

  ghost predicate CalledAt(e: Expr, dot: int, calls: seq<int>, i: int)
    requires 0 < i < |calls|
  {
    NextCall(e, calls[i - 1], dot, calls[i])
  }

  /** The call at t is in progress, and one at u is made. */
  lemma CallsAgain(e: Expr, dot: int, calls: seq<int>, u: int)
    requires Nested(e, dot, calls) && calls != [] && NextCall(e, calls[|calls| - 1], dot, u)
    ensures Nested(e, dot, calls + [u])
  {
    hide NextCall;
    forall i | 0 < i < |calls + [u]| ensures CalledAt(e, dot, calls + [u], i) {
      if i < |calls| {
        assert CalledAt(e, dot, calls, i);
      }
    }
  }

  // ---- What a run of the search keeps ---------------------------------------------------

  ghost predicate ReachedBack(e: Expr, t0: int, t: int, dot: int) {
    && t <= t0 && Fires(e, t) && (ExactBack(e) ==> NoFires(e, t + 1, t0 + 1)) && (SureBack(e, t0, dot) ==> t >= 0)
    && forall u | NextCall(e, t0, dot, u) :: t <= u
  }

  /** First second of the sixth year before dot. */
  function BackLimit(dot: int): int {
    MonthFirst(12 * (dot + 1894)) * DAY
  }

  /** The first matching second of a minute that matches but for the month. */
  ghost predicate Initial(e: Expr, g: int) {
    Sec(g) in e.seconds && (forall s <- e.seconds :: Sec(g) <= s) && Due(e, g / 60)
  }

  ghost predicate Behind(e: Expr, t: int, dot: int) {
    exists g :: BackLimit(dot) <= g <= t && Initial(e, g)
  }

  /** Cases where the search cannot fail: the expression fired after the epoch, and not too early for its guard. */
  ghost predicate SureBack(e: Expr, t: int, dot: int) {
    exists f :: 0 <= f <= t && Initial(e, f) && MonthOk(e, Day(f)) && Year(Day(f)) >= dot + 1896
  }

  ghost predicate StartedBack(e: Expr, t0: int, t: int, sec: bool) {
    && PrevTime(e.seconds, 60, Second, Minute, t0, []) == t <= t0 && Sec(t) in e.seconds && (sec <==> Sec(t0) in e.seconds)
    && NoFires(e, t + 1, t0 + 1) && (NoGap(e.seconds) ==> HighKeep(e, sec, t))
  }

  /** The seconds of the time, once they are kept or reset, are not below the last that is listed. */
  predicate HighKeep(e: Expr, sec: bool, t: int) {
    forall s <- e.seconds :: s <= Keep59(sec, t)
  }

  lemma KeepsHigh(e: Expr, t0: int, t: int, sec: bool)
    requires Parsed(e) && NoGap(e.seconds) && (sec <==> Sec(t0) in e.seconds)
    requires t <= t0 && Sec(t) in e.seconds && (forall x | t < x <= t0 :: Sec(x) !in e.seconds)
    ensures HighKeep(e, sec, t)
  {
    hide Sec;
    if !sec {
      SecondParts(t0);
      SecondParts(t);
      forall s <- e.seconds ensures s <= Sec(t) {
        var x := t / 60 * 60 + s;
        SecondOf(t / 60, s);
        assert x > t ==> x > t0;
      }
    }
  }

  lemma StartsBack(e: Expr, t0: int, t: int, sec: bool, dot: int)
    requires Parsed(e) && t == PrevTime(e.seconds, 60, Second, Minute, t0, []) && (sec <==> Sec(t0) in e.seconds)
    requires t <= t0 && Sec(t) in e.seconds && (forall x | t < x <= t0 :: Sec(x) !in e.seconds)
    ensures StartedBack(e, t0, t, sec) && (Behind(e, t0, dot) ==> Behind(e, t, dot)) && (SureBack(e, t0, dot) ==> SureBack(e, t, dot))
  {
    hide Due, MonthOk, Year, BackLimit, PrevTime, HighKeep, NoGap, Sec;
    if NoGap(e.seconds) {
      KeepsHigh(e, t0, t, sec);
    }
    if Behind(e, t0, dot) {
      var g :| BackLimit(dot) <= g <= t0 && Initial(e, g);
      assert g <= t;
    }
    if SureBack(e, t0, dot) {
      var f :| 0 <= f <= t0 && Initial(e, f) && MonthOk(e, Day(f)) && Year(Day(f)) >= dot + 1896;
      assert f <= t;
    }
  }

  /** A step from t back to u, which passes no match by if the search is exact. */
  ghost predicate Backward(e: Expr, t: int, u: int, sec: bool) {
    u / 60 < t / 60 && Sec(u) == Keep59(sec, t) && Sec(t) in e.seconds && (ExactBack(e) ==> NoFires(e, u + 1, t + 1))
  }

  lemma GoesBack(e: Expr, t: int, u: int, sec: bool)
    requires u / 60 < t / 60 && Sec(u) == Keep59(sec, t) && Sec(t) in e.seconds
    requires ExactBack(e) ==> HighKeep(e, sec, t) && NoneFires(e, u / 60 + 1, t / 60 + 1)
    ensures Backward(e, t, u, sec)
  {
    hide FiresIn, Fires, ExactBack, Sec;
    if ExactBack(e) {
      forall x | u + 1 <= x < t + 1 ensures !Fires(e, x) {
        QuietBack(e, t, u, sec, x);
      }
    }
  }

  lemma QuietBack(e: Expr, t: int, u: int, sec: bool, x: int)
    requires NoneFires(e, u / 60 + 1, t / 60 + 1) && HighKeep(e, sec, t) && Sec(u) == Keep59(sec, t) && u < x <= t
    ensures !Fires(e, x)
  {
    hide Due, MonthOk, Keep59;
    SecondParts(x);
    SecondParts(u);
    DayOfMinute(x);
    assert x / 60 > u / 60 ==> !FiresIn(e, x / 60);
  }

  /** A matching first second is not passed by with its minute. */
  lemma NotPassedBack(e: Expr, t: int, u: int, sec: bool, g: int)
    requires Backward(e, t, u, sec) && g <= t && Initial(e, g) && g / 60 <= u / 60
    ensures g <= u
  {
    hide Due, ExactBack, NoFires;
    SecondParts(g);
    SecondParts(u);
  }

  lemma StillBehind(e: Expr, t: int, u: int, sec: bool, dot: int)
    requires Backward(e, t, u, sec) && NoneDue(e, u / 60 + 1, t / 60 + 1) && Behind(e, t, dot)
    ensures Behind(e, u, dot)
  {
    hide Due, BackLimit, Backward;
    var g :| BackLimit(dot) <= g <= t && Initial(e, g);
    MinutesInOrder(g, t);
    NotPassedBack(e, t, u, sec, g);
  }

  lemma StillSureBack(e: Expr, t: int, u: int, sec: bool, dot: int)
    requires Backward(e, t, u, sec) && NoneFires(e, u / 60 + 1, t / 60 + 1)
    ensures SureBack(e, t, dot) ==> SureBack(e, u, dot) && Year(Day(u)) >= dot + 1896 && u >= 0
  {
    hide Due, MonthOk, Year, Backward;
    if SureBack(e, t, dot) {
      var f :| 0 <= f <= t && Initial(e, f) && MonthOk(e, Day(f)) && Year(Day(f)) >= dot + 1896;
      DayOfMinute(f);
      MinutesInOrder(f, t);
      assert FiresIn(e, f / 60);
      NotPassedBack(e, t, u, sec, f);
      YearMonotone(Day(f), Day(u));
    }
  }

  lemma ReachedBackToo(e: Expr, t0: int, t: int, u: int, sec: bool, v: int, dot: int)
    requires StartedBack(e, t0, t, sec) && Backward(e, t, u, sec) && NextCall(e, t0, dot, u) && ReachedBack(e, u, v, dot)
    requires SureBack(e, t0, dot) ==> SureBack(e, u, dot)
    ensures ReachedBack(e, t0, v, dot)
  {
    hide Fires, NextCall, ExactBack, HighKeep, PrevTime, SureBack;
    EarlierTime(t, u);
    forall w | NextCall(e, t0, dot, w) ensures v <= w {
      OneCallBack(e, t0, dot, u, w);
    }
  }

  /** A match of all but the month within 367 days before any time that is not too early. */
  lemma BehindAgain(e: Expr, t: int, dot: int)
    requires Parsed(e) && DaysFoundBack(e) && Year(Day(t)) >= dot + 1896
    ensures Behind(e, t, dot)
  {
    hide Year, Day, MonthOf, MonthFirst, BackLimit, Initial, DayOk;
    var n := DayBehind(e, Day(t) - 1);
    var d := Day(t) - 1 - n;
    var h := Member(e.hours, 0, 23);
    var m := Member(e.minutes, 0, 59);
    var s := FirstSecond(e);
    var g := InitialAt(e, d, h, m, s);
    YearBefore(Day(t), d, dot);
    DayEnds(t);
    assert BackLimit(dot) <= g <= t && Initial(e, g);
  }

  lemma FirstSecond(e: Expr) returns (s: int)
    requires Parsed(e)
    ensures s in e.seconds && 0 <= s < 60 && forall x <- e.seconds :: s <= x
  {
    s := Member(e.seconds, 0, 59);
    while exists x :: x in e.seconds && x < s
      invariant s in e.seconds && 0 <= s < 60
      decreases s
    {
      var x :| x in e.seconds && x < s;
      s := x;
    }
  }

  lemma InitialAt(e: Expr, d: int, h: int, m: int, s: int) returns (g: int)
    requires DayOk(e, d) && h in e.hours && 0 <= h < 24 && m in e.minutes && 0 <= m < 60
    requires s in e.seconds && 0 <= s < 60 && forall x <- e.seconds :: s <= x
    ensures Initial(e, g) && d * DAY <= g < (d + 1) * DAY
  {
    hide DayOk;
    var j := d * 1440 + h * 60 + m;
    g := j * 60 + s;
    SecondOf(j, s);
    FloorIs(j, 60, d * 24 + h, m);
    FloorIs(d * 24 + h, 24, d, h);
    FloorIs(j, 1440, d, h * 60 + m);
  }

  lemma YearBefore(day: int, d: int, dot: int)
    requires Year(day) >= dot + 1896 && day - 367 <= d <= day
    ensures BackLimit(dot) <= d * DAY
  {
    hide MonthFirst, MonthOf;
    var k := MonthOf(day);
    MonthsGrow(k - 14, k);
    MonthsGrow(12 * (dot + 1894), k - 14);
  }

  // ---- Operations -------------------------------------------------------------------------

  /** prev_set_bit */
  method PrevSetBit(bits: set<int>, fromIndex: int, toIndex: int) returns (i: int, notfound: bool)
    requires toIndex >= 0
    ensures notfound <==> LastIn(bits, fromIndex, toIndex) == -1
    ensures i == if notfound then 0 else LastIn(bits, fromIndex, toIndex)
  {
    i := fromIndex;
    while i >= toIndex
      invariant i <= fromIndex && LastIn(bits, fromIndex, toIndex) == LastIn(bits, i, toIndex)
    {
      if i in bits {
        return i, false;
      }
      i := i - 1;
    }
    i, notfound := 0, true;
  }

  /** last_day_of_month: the day before the first of the next one */
  method LastDayOfMonth(month: int, year: int) returns (d: int)
    requires 0 <= month < 12
    ensures d == MonthLength(12 * (year + 1900) + month)
  {
    var t := Instant(year + 1900, month + 1, 0, 0, 0, 0);
    hide MonthFirst, MonthOf, MonthLength, Mday;
    d := Mday(Day(t));
    LastDay(12 * (year + 1900) + month, t);
  }

  lemma LastDay(k: int, t: int)
    requires t == (MonthFirst(k + 1) - 1) * DAY
    ensures Mday(Day(t)) == MonthLength(k)
  {
    hide MonthFirst, MonthOf, MonthLength, Mday;
    NextMonth(k);
    MonthLengths(k);
    FloorIs(t, DAY, MonthFirst(k + 1) - 1, 0);
    CarryAtMost(k, MonthLength(k));
  }

  /** reset_max */
  method ResetMax(cal: Tm, field: Field) returns (err: int)
    requires cal.Normal() && Resettable(field)
    modifies cal
    ensures cal.Normal() && cal.T() == SetTo(field, old(cal.T()), Highest(field, old(cal.T())))
    ensures err == (if cal.T() == CRON_INVALID_INSTANT then 1 else 0)
  {
    hide SetTo, Tm.T, Tm.Normal, Mon, Year, Mday, MonthLength, MonthOf, MonthFirst, Value, AddTo, Sec, Min, Hour, Wday, Day;
    FieldsNow(cal);
    var highest;
    match field {
      case Second => highest := 59;
      case Minute => highest := 59;
      case Hours => highest := 23;
      case DayOfMonth =>
        highest := LastDayOfMonth(cal.tm_mon, cal.tm_year);
        ThisMonth(Day(cal.T()));
      case Month => highest := 11;
    }
    err := cal.SetField(field, highest);
  }

  lemma ThisMonth(day: int)
    ensures 12 * Year(day) + Mon(day) == MonthOf(day)
  {
    hide MonthOf;
  }

  /** At the invalid time all fields have their highest value. */
  lemma HighestAtInvalid(f: Field)
    requires Resettable(f)
    ensures SetTo(f, -1, Highest(f, -1)) == -1
  {
    hide MonthOf, MonthFirst, MonthLength;
    LastBeforeEpoch();
    match f {
      case Second =>
      case Minute =>
      case Hours =>
      case DayOfMonth =>
      case Month => SetMonth(-1, 11);
    }
  }

  lemma LastBeforeEpoch()
    ensures Day(-1) == -1 && MonthOf(-1) == 12 * 1970 - 1 && Mday(-1) == 31 && MonthLength(12 * 1970 - 1) == 31
    ensures MoveMonths(-1, 0) == -1
  {
    hide MonthOf, MonthFirst;
    EpochStart();
    MonthUnique(-1, 12 * 1970 - 1);
  }

  /** Resets do not move out of the invalid time. */
  lemma {:induction false} StaysInvalid(fields: seq<Field>)
    requires AllResettable(fields)
    ensures ResetAllMax(-1, fields) == -1
    decreases |fields|
  {
    hide SetTo, Highest;
    if fields != [] {
      HighestAtInvalid(fields[0]);
      StaysInvalid(fields[1..]);
    }
  }

  /** Nor past the epoch. */
  lemma StaysBefore(f: Field, t: int, v: int)
    requires Resettable(f) && t < 0 && v <= Highest(f, t)
    ensures SetTo(f, t, v) < 0
  {
    hide MonthOf, MonthFirst, MonthLength;
    match f {
      case Second =>
      case Minute => TimeParts(t);
      case Hours => DayParts(t);
      case DayOfMonth => DayBeforeEpoch(t, v);
      case Month => MonthBeforeEpoch(t, v);
    }
  }

  lemma BeforeEpoch(day: int)
    requires day < 0
    ensures MonthOf(day) < 12 * 1970 && MonthFirst(MonthOf(day) + 1) <= 0
  {
    hide MonthOf, MonthFirst;
    EpochStart();
    BeforeMonth(day, 12 * 1970);
    MonthsGrow(MonthOf(day) + 1, 12 * 1970);
  }

  lemma DayBeforeEpoch(t: int, v: int)
    requires t < 0 && v <= MonthLength(MonthOf(Day(t)))
    ensures SetTo(DayOfMonth, t, v) < 0
  {
    hide MonthOf, MonthFirst, MonthLength;
    BeforeEpoch(Day(t));
    NextMonth(MonthOf(Day(t)));
    DaySplit(t);
    DayEnds(t);
  }

  lemma MonthBeforeEpoch(t: int, v: int)
    requires t < 0 && v <= 11
    ensures SetTo(Month, t, v) < 0
  {
    hide MonthOf, MonthFirst, MonthLength, MoveMonths, Mday, Day;
    var k := MonthOf(Day(t));
    DayEnds(t);
    BeforeEpoch(Day(t));
    SetMonth(t, v);
    Moved(t, v - k % 12);
    MdayRange(Day(t));
    NegativeDay(k, v, Mday(Day(t)));
    DayEnds(MoveMonths(t, v - k % 12));
  }

  lemma NegativeDay(k: int, v: int, d: int)
    requires k < 12 * 1970 && v <= 11 && d <= 31
    ensures MonthFirst(k + v - k % 12) + d - 1 < 0
  {
    hide MonthFirst;
    var m := k + v - k % 12;
    EpochStart();
    assert m <= 12 * 1970 - 1;
    MonthsGrow(m, 12 * 1970 - 1);
  }

  lemma {:induction false} ResetsStayBefore(t: int, fields: seq<Field>)
    requires AllResettable(fields) && t < 0
    ensures ResetAllMax(t, fields) < 0
    decreases |fields|
  {
    hide SetTo, Highest;
    NoResetsMax(t);
    if fields != [] {
      StaysBefore(fields[0], t, Highest(fields[0], t));
      ResetsStayBefore(SetTo(fields[0], t, Highest(fields[0], t)), fields[1..]);
    }
  }

  /** reset_all_max. Stopping at the invalid time makes no difference to the calendar. */
  method ResetAllToMax(cal: Tm, fields: seq<Field>) returns (err: int)
    requires cal.Normal() && AllResettable(fields)
    modifies cal
    ensures cal.Normal() && cal.T() == ResetAllMax(old(cal.T()), fields)
    ensures err != 0 ==> cal.T() == CRON_INVALID_INSTANT
  {
    hide SetTo, Tm.T, Tm.Normal, Highest;
    var i := 0;
    assert fields[0..] == fields;
    while i < |fields|
      invariant 0 <= i <= |fields| && cal.Normal() && ResetAllMax(cal.T(), fields[i..]) == ResetAllMax(old(cal.T()), fields)
    {
      assert fields[i..][1..] == fields[i + 1..];
      err := ResetMax(cal, fields[i]);
      if err != 0 {
        StaysInvalid(fields[i + 1..]);
        return;
      }
      i := i + 1;
    }
    err := 0;
    NoResetsMax(cal.T());
    assert fields[i..] == [];
  }

  /** find_prev: the value found, and whether the calendar came to the invalid time. */
  method FindPrev(bits: set<int>, max: int, value: int, cal: Tm, field: Field, nextField: Field, lower: seq<Field>)
    returns (next: int, res: int)
    requires cal.Normal() && Roll(field, nextField, max) && value == Value(field, cal.T()) && Within(bits, 0, max - 1) && AllResettable(lower)
    modifies cal
    ensures cal.Normal()
    ensures res == 0 ==> cal.T() == PrevTime(bits, max, field, nextField, old(cal.T()), lower)
    ensures res == 0 ==> (next == value <==> value in bits)
    ensures value in bits || PrevTime(bits, max, field, nextField, old(cal.T()), lower) >= 0 ==> res == 0
  {
    hide SetTo, AddTo, Value, Highest, ResetAllMax, Tm.T, Tm.Normal;
    ghost var t := cal.T();
    ValueBelow(field, nextField, max, t);
    ghost var x := Member(bits, 0, max - 1);
    var notfound;
    next, notfound := PrevSetBit(bits, value, 0);
    res := 0;
    if notfound {
      ghost var y := LastIn(bits, max - 1, value);
      Negative(field, nextField, max, t, y, lower);
      var err := cal.AddToField(nextField, -1);
      if err != 0 {
        return 0, 1;
      }
      err := ResetMax(cal, field);
      if err != 0 {
        return 0, 1;
      }
      next, notfound := PrevSetBit(bits, max - 1, value);
    }
    if notfound || next != value {
      var err := cal.SetField(field, next);
      if err != 0 {
        ResetsStayBefore(cal.T(), lower);
        return 0, 1;
      }
      err := ResetAllToMax(cal, lower);
      if err != 0 {
        return 0, 1;
      }
    }
  }

  /** Having been before the epoch, a step ends there. */
  lemma Negative(f: Field, nf: Field, max: int, t: int, y: int, lower: seq<Field>)
    requires Roll(f, nf, max) && AllResettable(lower) && y < max
    ensures var a := AddTo(nf, t, -1); var b := SetTo(f, a, Highest(f, a));
      a == -1 || b == -1 ==> ResetAllMax(SetTo(f, b, y), lower) < 0
  {
    hide SetTo, AddTo, ResetAllMax;
    var a := AddTo(nf, t, -1);
    var b := SetTo(f, a, Highest(f, a));
    if a == -1 || b == -1 {
      HighestAtInvalid(f);
      StaysBefore(f, -1, y);
      ResetsStayBefore(SetTo(f, -1, y), lower);
    }
  }

  // ---- Days -----------------------------------------------------------------------------

  lemma DayFoundBack(e: Expr, t: int, u: int, sec: bool, n: int)
    requires DaysFoundBack(e) && DaysBack(e, Day(t), n) && u == (if n == 0 then t else (Day(t) - n) * DAY + 86340 + Keep59(sec, t))
    ensures DayOk(e, Day(t)) ==> n == 0
    ensures !DayOk(e, Day(t)) ==> PrevDayIs(e, t, u, sec) && Mday(Day(t) - n) != Mday(Day(t))
  {
    hide DayOk, Mday, Day, Keep59;
    if !DayOk(e, Day(t)) {
      Keep59Range(sec, t);
      LastMinuteOfDay(u, Day(t) - n, Keep59(sec, t));
    }
  }

  lemma Keep59Range(sec: bool, t: int)
    ensures 0 <= Keep59(sec, t) < 60
  {}

  lemma DayMinus(t: int, d: int, s: int)
    requires t == d * DAY + s && 0 <= s < DAY
    ensures Day(t) == d && AddTo(DayOfMonth, t, -1) == (d - 1) * DAY + s && Day(AddTo(DayOfMonth, t, -1)) == d - 1
    ensures Sec(AddTo(DayOfMonth, t, -1)) == Sec(t)
  {
    hide MonthOf, MonthFirst, Mday, Wday;
    FloorIs(t, DAY, d, s);
    FloorIs(t - DAY, DAY, d - 1, s);
    FloorIs(t - DAY, 60, t / 60 - 1440, t % 60);
  }

  /** find_prev_day: the number of the previous matching day, at whose end the calendar is then; or that of
      the day before a year in which none matches. */
  method FindPrevDay(cal: Tm, e: Expr, dayOfMonth0: int, dayOfWeek0: int, resets: seq<Field>, ghost sec: bool)
    returns (dayOfMonth: int, res: int, ghost days: int)
    requires cal.Normal() && dayOfMonth0 == Mday(Day(cal.T())) && dayOfWeek0 == Wday(Day(cal.T()))
    requires AllResettable(resets) && (DayOk(e, Day(cal.T())) || resets == Lower(sec, 2))
    modifies cal
    ensures cal.Normal()
    ensures res == 0 ==> DaysBack(e, Day(old(cal.T())), days) && dayOfMonth == Mday(Day(old(cal.T())) - days)
    ensures res == 0 ==> cal.T() == if days == 0 then old(cal.T()) else (Day(old(cal.T())) - days) * DAY + 86340 + Keep59(sec, old(cal.T()))
    ensures res != 0 ==> forall d | 0 <= d <= Day(old(cal.T())) :: !DayOk(e, d)
    ensures DayOk(e, Day(old(cal.T()))) ==> res == 0
  {
    hide MonthOf, MonthFirst, Mday, Wday, Day, Sec, AddTo, SetTo, ResetAllMax, Tm.T, Lower;
    ghost var t := cal.T();
    ghost var d0 := Day(t);
    var count, max := 0, 366;
    dayOfMonth, res := dayOfMonth0, 0;
    var dayOfWeek := dayOfWeek0;
    DaySplit(t);
    while !(dayOfMonth in e.daysOfMonth && dayOfWeek in e.daysOfWeek) && count < max
      invariant cal.Normal() && 0 <= count <= max && res == 0
      invariant dayOfMonth == Mday(d0 - count) && dayOfWeek == Wday(d0 - count) && forall d | d0 - count < d <= d0 :: !DayOk(e, d)
      invariant count > 0 ==> cal.T() == (d0 - count) * DAY + 86340 + Keep59(sec, t)
      invariant count == 0 ==> cal.T() == t
    {
      count := count + 1;
      ghost var s := if count == 1 then t % DAY else 86340 + Keep59(sec, t);
      DayMinus(cal.T(), d0 - count + 1, s);
      var err := cal.AddToField(DayOfMonth, -1);
      if err != 0 {
        FloorIs(-1, DAY, -1, DAY - 1);
        DayIs(-1, -1);
        return 0, 1, count;
      }
      ghost var u := cal.T();
      dayOfMonth := cal.tm_mday;
      dayOfWeek := cal.tm_wday;
      ResetHourMax(sec, u);
      var _ := ResetAllToMax(cal, resets);
      KeepsSecondBack(t, u, sec, count, d0);
    }
    days := count;
  }

  lemma KeepsSecondBack(t: int, u: int, sec: bool, count: int, d0: int)
    requires count >= 1 && (count == 1 ==> Sec(u) == Sec(t)) && (count > 1 ==> Sec(u) == Sec((d0 - count + 1) * DAY + 86340 + Keep59(sec, t)))
    ensures Keep59(sec, u) == Keep59(sec, t)
  {
    FloorIs((d0 - count + 1) * DAY + 86340 + Keep59(sec, t), 60, (d0 - count + 1) * 1440 + 1439, Keep59(sec, t));
  }

  // ---- The search -----------------------------------------------------------------------

  lemma MinuteMovesBack(e: Expr, t: int, sec: bool) returns (u: int)
    requires Parsed(e) && Min(t) !in e.minutes && Sec(t) in e.seconds && (NoGap(e.seconds) ==> HighKeep(e, sec, t))
    ensures u == PrevTime(e.minutes, 60, Minute, Hours, t, Lower(sec, 0)) && Backward(e, t, u, sec) && NoneDue(e, u / 60 + 1, t / 60 + 1)
  {
    hide PrevTime, Min, Sec, HighKeep, NoGap;
    u := PrevTime(e.minutes, 60, Minute, Hours, t, Lower(sec, 0));
    MinuteStepBack(e, t, sec);
    MinutesPassedBack(e, t, u);
    DueNoFires(e, u / 60 + 1, t / 60 + 1);
    assert !Open(e);
    GoesBack(e, t, u, sec);
  }

  lemma HourMovesBack(e: Expr, t: int, sec: bool) returns (u: int)
    requires Parsed(e) && Hour(t) !in e.hours && Sec(t) in e.seconds && (NoGap(e.seconds) ==> HighKeep(e, sec, t))
    ensures u == PrevTime(e.hours, 24, Hours, DayOfWeek, t, Lower(sec, 1)) && Backward(e, t, u, sec) && NoneDue(e, u / 60 + 1, t / 60 + 1)
  {
    hide PrevTime, Hour, Sec, HighKeep, NoGap;
    u := PrevTime(e.hours, 24, Hours, DayOfWeek, t, Lower(sec, 1));
    HourStepBack(e, t, sec);
    HoursPassedBack(e, t, u);
    LastMinute(u, Keep59(sec, t));
    TimeParts(t);
    TimeParts(u);
    DueNoFires(e, u / 60 + 1, t / 60 + 1);
    assert !Open(e);
    GoesBack(e, t, u, sec);
  }

  lemma LastMinute(u: int, s: int)
    requires 0 <= s < 60 && u % 3600 == 3540 + s
    ensures Sec(u) == s
  {
    FloorIs(u, 60, u / 3600 * 60 + 59, s);
  }

  lemma LastMinuteOfDay(u: int, d: int, s: int)
    requires 0 <= s < 60 && u == d * DAY + 86340 + s
    ensures Sec(u) == s && Day(u) == d && u % DAY == 86340 + s && u / 60 == d * 1440 + 1439
  {
    FloorIs(u, 60, d * 1440 + 1439, s);
    FloorIs(u, DAY, d, 86340 + s);
  }

  lemma EarlierDay(t: int, u: int)
    requires Day(u) < Day(t)
    ensures u / 60 < t / 60
  {}

  lemma DayMovesBack(e: Expr, t: int, u: int, sec: bool)
    requires Parsed(e) && Sec(t) in e.seconds && PrevDayIs(e, t, u, sec) && (NoGap(e.seconds) ==> HighKeep(e, sec, t))
    ensures Backward(e, t, u, sec) && NoneDue(e, u / 60 + 1, t / 60 + 1)
  {
    hide DayOk, Sec, HighKeep, NoGap;
    LastMinuteOfDay(u, Day(u), Keep59(sec, t));
    DaysPassedBack(e, t, u);
    EarlierDay(t, u);
    DueNoFires(e, u / 60 + 1, t / 60 + 1);
    ClosedDay(e, Day(t));
    GoesBack(e, t, u, sec);
  }

  lemma MonthMovesBack(e: Expr, t: int, sec: bool) returns (u: int)
    requires Parsed(e) && Ends(e) && !MonthOk(e, Day(t)) && Sec(t) in e.seconds && DayOk(e, Day(t)) && (NoGap(e.seconds) ==> HighKeep(e, sec, t))
    ensures u == PrevTime(e.months, 12, Month, Years, t, Lower(sec, 3)) && Backward(e, t, u, sec) && NoneFires(e, u / 60 + 1, t / 60 + 1)
    ensures Year(Day(t)) - 3 <= Year(Day(u)) <= Year(Day(t))
  {
    hide PrevTime, Sec, MonthFirst, MonthOf, Mday, MonthLength, Ends, HighKeep, NoGap;
    u := PrevTime(e.months, 12, Month, Years, t, Lower(sec, 3));
    var k := MonthStepBack(e, t, sec);
    var j := MonthOf(Day(t));
    MonthsSkippedBack(e, j);
    EarlierMonth(e, Day(t), k);
    LastMinuteOfDay(u, MonthFirst(k + 1) - 1, Keep59(sec, t));
    NextMonth(k);
    MonthLengths(k);
    MonthUnique(MonthFirst(k + 1) - 1, k);
    InItsMonth(Day(t), k);
    MonthsPassedBack(e, t, u);
    EarlierDay(t, u);
    ClosedDay(e, Day(t));
    GoesBack(e, t, u, sec);
  }

  /** A month that is not listed does not come back to itself if the search ends. */
  lemma EarlierMonth(e: Expr, day: int, k: int)
    requires Parsed(e) && Ends(e) && !MonthOk(e, day) && DayOk(e, day)
    requires var p := PrevMonthOf(e, MonthOf(day)); k == p || (k == p + 1 && Mday(day) > MonthLength(p))
    ensures k < MonthOf(day)
  {
    hide MonthFirst, MonthOf, Mday;
    var j := MonthOf(day);
    var p := PrevMonthOf(e, j);
    MonthsSkippedBack(e, j);
    if k == p + 1 == j {
      var y := Member(e.months, 0, 11);
      var w := LastIn(e.months, j % 12, 0);
      if w == -1 {
        FloorIs(p, 12, j / 12 - 1, p - j + j % 12 + 12);
      } else {
        FloorIs(p, 12, j / 12, w);
        MonthAtLeast(p);
      }
    }
  }

  lemma MonthAtLeast(k: int)
    ensures CommonLength(k % 12) <= MonthLength(k)
  {}

  lemma InItsMonth(day: int, k: int)
    requires k < MonthOf(day)
    ensures MonthFirst(k + 1) - 1 < day
  {
    hide MonthFirst, MonthOf;
    MonthsGrow(k + 1, MonthOf(day));
  }

  lemma StaysBack(bits: set<int>, max: int, f: Field, nf: Field, t: int, lower: seq<Field>)
    requires Roll(f, nf, max) && Value(f, t) in bits
    ensures PrevTime(bits, max, f, nf, t, lower) == t
  {
    hide Value, ResetAllMax, SetTo, AddTo;
    ValueBelow(f, nf, max, t);
  }

  /** What holds between the steps. */
  ghost predicate BetweenBack(e: Expr, t0: int, t1: int, t: int, sec: bool, resets: seq<Field>, n: nat, dot: int)
    requires n <= 3
  {
    && AllResettable(resets) && StartedBack(e, t0, t1, sec) && Behind(e, t1, dot) && t1 >= BackLimit(dot) && dot + 1900 >= Year(Day(t1))
    && (SureBack(e, t0, dot) ==> SureBack(e, t1, dot))
    && ((t == t1 && resets == Lower(sec, n) && Matches(e, t, n)) || ReachedBack(e, t0, t, dot))
  }

  lemma UnmovedBack(e: Expr, t0: int, t1: int, t: int, sec: bool, resets: seq<Field>, n: nat, dot: int)
    requires n <= 2 && BetweenBack(e, t0, t1, t, sec, resets, n, dot) && Matches(e, t, n + 1)
    ensures var f := [Minute, Hours, DayOfMonth][n];
      BetweenBack(e, t0, t1, t, sec, if f in resets then resets else resets + [f], n + 1, dot)
  {
    hide Behind, SureBack, ReachedBack, StartedBack, BackLimit, Year;
    var f := [Minute, Hours, DayOfMonth][n];
    assert Lower(sec, n) + [f] == Lower(sec, n + 1);
  }

  lemma RestartsBack(e: Expr, t0: int, t1: int, u: int, sec: bool, resets: seq<Field>, n: nat, dot: int)
    requires n <= 3 && Parsed(e) && BetweenBack(e, t0, t1, t1, sec, resets, n, dot) && Backward(e, t1, u, sec) && NoneDue(e, u / 60 + 1, t1 / 60 + 1)
    requires NextCall(e, t0, dot, u)
    ensures Behind(e, u, dot) && u >= BackLimit(dot) && dot + 1900 >= Year(Day(u)) && u < t1
    ensures SureBack(e, t0, dot) ==> SureBack(e, u, dot) && u >= 0
    ensures forall v :: ReachedBack(e, u, v, dot) ==> ReachedBack(e, t0, v, dot)
  {
    hide NoneDue, Backward, StartedBack, BackLimit, Year, SureBack, ReachedBack, Matches, NextCall;
    StillBehind(e, t1, u, sec, dot);
    DueNoFires(e, u / 60 + 1, t1 / 60 + 1);
    StillSureBack(e, t1, u, sec, dot);
    BackwardIsEarlier(e, t1, u, sec);
    forall v | ReachedBack(e, u, v, dot) ensures ReachedBack(e, t0, v, dot) {
      ReachedBackToo(e, t0, t1, u, sec, v, dot);
    }
  }

  lemma BackwardIsEarlier(e: Expr, t: int, u: int, sec: bool)
    requires Backward(e, t, u, sec)
    ensures u < t && Year(Day(u)) <= Year(Day(t))
  {
    EarlierTime(t, u);
    YearMonotone(Day(u), Day(t));
  }

  lemma EarlierTime(t: int, u: int)
    requires u / 60 < t / 60
    ensures u < t && Day(u) <= Day(t)
  {}

  lemma ReachedBackFrom(e: Expr, t0: int, t1: int, t: int, sec: bool, resets: seq<Field>, n: nat, dot: int, t': int)
    requires n <= 2 && BetweenBack(e, t0, t1, t, sec, resets, n, dot) && ReachedBack(e, t0, t', dot)
    ensures BetweenBack(e, t0, t1, t', sec, resets, n + 1, dot)
  {
    hide Behind, SureBack, ReachedBack, StartedBack, BackLimit, Year, Matches;
  }

  lemma ReachedBackMatches(e: Expr, t0: int, t: int, dot: int)
    requires ReachedBack(e, t0, t, dot)
    ensures Matches(e, t, 3) && MonthOk(e, Day(t))
  {
    DayOfMinute(t);
  }

  /** If the next field does not match, nothing moved since the seconds. */
  lemma BetweenBackMeans(e: Expr, t0: int, t1: int, t: int, sec: bool, resets: seq<Field>, n: nat, dot: int)
    requires n <= 3 && BetweenBack(e, t0, t1, t, sec, resets, n, dot)
    ensures AllResettable(resets) && Sec(t) in e.seconds && t1 >= BackLimit(dot) && StartedBack(e, t0, t1, sec) && (NoGap(e.seconds) ==> HighKeep(e, sec, t1))
    ensures var ok := if n == 0 then Min(t) in e.minutes else if n == 1 then Hour(t) in e.hours else if n == 2 then DayOk(e, Day(t)) else MonthOk(e, Day(t));
      if ok then (n < 3 ==> Matches(e, t, n + 1)) else t == t1 && resets == Lower(sec, n) && Matches(e, t, n)
  {
    hide Behind, BackLimit, Year, Lower, MonthOk, DayOk, PrevTime, NextCall, HighKeep, NoGap, ExactBack, NoFires;
    if ReachedBack(e, t0, t, dot) {
      ReachedBackMatches(e, t0, t, dot);
    }
  }

  lemma BeginsBack(e: Expr, t0: int, t1: int, sec: bool, resets: seq<Field>, dot: int)
    requires Parsed(e) && t1 <= t0 && Sec(t1) in e.seconds && (forall x | t1 < x <= t0 :: Sec(x) !in e.seconds)
    requires Behind(e, t0, dot) && dot + 1900 >= Year(Day(t0)) && resets == (if sec then [Second] else [])
    requires t1 == PrevTime(e.seconds, 60, Second, Minute, t0, []) && (sec <==> Sec(t0) in e.seconds)
    ensures BetweenBack(e, t0, t1, t1, sec, resets, 0, dot)
  {
    hide BackLimit, Year, StartedBack, SureBack, ReachedBack;
    StartsBack(e, t0, t1, sec, dot);
    assert resets == Lower(sec, 0);
    YearMonotone(Day(t1), Day(t0));
  }

  lemma BehindLimit(e: Expr, t: int, dot: int)
    requires Behind(e, t, dot)
    ensures t >= BackLimit(dot)
  {}

  /** The seconds found are not before the epoch if the search cannot fail. */
  lemma SecondsSure(e: Expr, t0: int, t1: int, dot: int)
    requires Parsed(e) && t1 <= t0 && (forall x | t1 < x <= t0 :: Sec(x) !in e.seconds)
    ensures SureBack(e, t0, dot) ==> t1 >= 0
  {
    hide Due, MonthOk, Year;
  }

  /** do_prev, without the allocation of its lists */
  method DoPrev(e: Expr, cal: Tm, dot: int, ghost calls: seq<int>) returns (res: int)
    requires Parsed(e) && DaysFoundBack(e) && Ends(e) && cal.Normal() && dot + 1900 >= Year(Day(cal.T())) && Behind(e, cal.T(), dot)
    requires calls != [] && calls[|calls| - 1] == cal.T() && Nested(e, dot, calls)
    modifies cal
    ensures cal.Normal()
    ensures res == 0 ==> ReachedBack(e, old(cal.T()), cal.T(), dot)
    ensures SureBack(e, old(cal.T()), dot) ==> res == 0
    decreases cal.T() - BackLimit(dot), 4
  {
    hide PrevTime, ReachedBack, SureBack, Behind, StartedBack, Matches, Tm.T, BackLimit, Year, Mday, Mon, Sec, Min, Hour,
      Day, Wday, Lower, Value, BetweenBack;
    ghost var t0 := cal.T();
    BehindLimit(e, t0, dot);
    var resets: seq<Field> := [];
    FieldsNow(cal);
    var second := cal.tm_sec;
    SecondStepBack(e, t0);
    SecondsSure(e, t0, PrevTime(e.seconds, 60, Second, Minute, t0, []), dot);
    var updateSecond;
    updateSecond, res := FindPrev(e.seconds, CRON_MAX_SECONDS, second, cal, Second, Minute, []);
    if res != 0 {
      return;
    }
    ghost var sec := second == updateSecond;
    if second == updateSecond {
      resets := Push(resets, Second);
    }
    ghost var t1 := cal.T();
    BeginsBack(e, t0, t1, sec, resets, dot);
    resets, res := MinutePart(e, cal, dot, resets, t0, t1, sec, calls);
    if res != 0 {
      return;
    }
    resets, res := HourPart(e, cal, dot, resets, t0, t1, sec, calls);
    if res != 0 {
      return;
    }
    resets, res := DayPart(e, cal, dot, resets, t0, t1, sec, calls);
    if res != 0 {
      return;
    }
    res := MonthPart(e, cal, dot, resets, t0, t1, sec, calls);
  }

  method MinutePart(e: Expr, cal: Tm, dot: int, resets0: seq<Field>, ghost t0: int, ghost t1: int, ghost sec: bool, ghost calls: seq<int>) returns (resets: seq<Field>, res: int)
    requires Parsed(e) && DaysFoundBack(e) && Ends(e) && cal.Normal() && BetweenBack(e, t0, t1, cal.T(), sec, resets0, 0, dot)
    requires calls != [] && calls[|calls| - 1] == t0 && Nested(e, dot, calls)
    modifies cal
    ensures cal.Normal() && (res == 0 ==> BetweenBack(e, t0, t1, cal.T(), sec, resets, 1, dot))
    ensures SureBack(e, t0, dot) ==> res == 0
    decreases t1 - BackLimit(dot), 3
  {
    hide PrevTime, ReachedBack, SureBack, Behind, StartedBack, Matches, Tm.T, BackLimit, Year, Mday, Mon, Sec, Min, Hour,
      Day, Wday, Lower, Value, BetweenBack, Backward, NoneDue, NextCall, DaysBack, DaysFoundBack, HighKeep, NoGap;
    ghost var t := cal.T();
    BetweenBackMeans(e, t0, t1, t, sec, resets0, 0, dot);
    FieldsNow(cal);
    resets := resets0;
    var minute := cal.tm_min;
    if minute in e.minutes {
      StaysBack(e.minutes, 60, Minute, Hours, t, resets);
      UnmovedBack(e, t0, t1, t, sec, resets, 0, dot);
    } else {
      ghost var u := MinuteMovesBack(e, t, sec);
      CallsNextBack(e, t0, t, sec, 0, dot, u);
      RestartsBack(e, t0, t1, u, sec, resets, 0, dot);
    }
    var updateMinute;
    updateMinute, res := FindPrev(e.minutes, CRON_MAX_MINUTES, minute, cal, Minute, Hours, resets);
    if res != 0 {
      return;
    }
    if minute == updateMinute {
      resets := Push(resets, Minute);
    } else {
      CallsAgain(e, dot, calls, cal.T());
      res := DoPrev(e, cal, dot, calls + [cal.T()]);
      if res != 0 {
        return;
      }
      ReachedBackFrom(e, t0, t1, t, sec, resets, 0, dot, cal.T());
    }
  }

  method HourPart(e: Expr, cal: Tm, dot: int, resets0: seq<Field>, ghost t0: int, ghost t1: int, ghost sec: bool, ghost calls: seq<int>) returns (resets: seq<Field>, res: int)
    requires Parsed(e) && DaysFoundBack(e) && Ends(e) && cal.Normal() && BetweenBack(e, t0, t1, cal.T(), sec, resets0, 1, dot)
    requires calls != [] && calls[|calls| - 1] == t0 && Nested(e, dot, calls)
    modifies cal
    ensures cal.Normal() && (res == 0 ==> BetweenBack(e, t0, t1, cal.T(), sec, resets, 2, dot))
    ensures SureBack(e, t0, dot) ==> res == 0
    decreases t1 - BackLimit(dot), 2
  {
    hide PrevTime, ReachedBack, SureBack, Behind, StartedBack, Matches, Tm.T, BackLimit, Year, Mday, Mon, Sec, Min, Hour,
      Day, Wday, Lower, Value, BetweenBack, Backward, NoneDue, NextCall, DaysBack, DaysFoundBack, HighKeep, NoGap;
    ghost var t := cal.T();
    BetweenBackMeans(e, t0, t1, t, sec, resets0, 1, dot);
    FieldsNow(cal);
    resets := resets0;
    var hour := cal.tm_hour;
    if hour in e.hours {
      StaysBack(e.hours, 24, Hours, DayOfWeek, t, resets);
      UnmovedBack(e, t0, t1, t, sec, resets, 1, dot);
    } else {
      ghost var u := HourMovesBack(e, t, sec);
      CallsNextBack(e, t0, t, sec, 1, dot, u);
      RestartsBack(e, t0, t1, u, sec, resets, 1, dot);
    }
    var updateHour;
    updateHour, res := FindPrev(e.hours, CRON_MAX_HOURS, hour, cal, Hours, DayOfWeek, resets);
    if res != 0 {
      return;
    }
    if hour == updateHour {
      resets := Push(resets, Hours);
    } else {
      CallsAgain(e, dot, calls, cal.T());
      res := DoPrev(e, cal, dot, calls + [cal.T()]);
      if res != 0 {
        return;
      }
      ReachedBackFrom(e, t0, t1, t, sec, resets, 1, dot, cal.T());
    }
  }

  method DayPart(e: Expr, cal: Tm, dot: int, resets0: seq<Field>, ghost t0: int, ghost t1: int, ghost sec: bool, ghost calls: seq<int>) returns (resets: seq<Field>, res: int)
    requires Parsed(e) && DaysFoundBack(e) && Ends(e) && cal.Normal() && BetweenBack(e, t0, t1, cal.T(), sec, resets0, 2, dot)
    requires calls != [] && calls[|calls| - 1] == t0 && Nested(e, dot, calls)
    modifies cal
    ensures cal.Normal() && (res == 0 ==> BetweenBack(e, t0, t1, cal.T(), sec, resets, 3, dot))
    ensures SureBack(e, t0, dot) ==> res == 0
    decreases t1 - BackLimit(dot), 1
  {
    hide PrevTime, ReachedBack, SureBack, Behind, StartedBack, Matches, Tm.T, BackLimit, Year, Mday, Mon, Sec, Min, Hour,
      Day, Wday, Lower, Value, BetweenBack, Backward, NoneDue, NextCall, DaysBack, DaysFoundBack, HighKeep, NoGap,
      PrevDayIs, DayOk;
    ghost var t := cal.T();
    BetweenBackMeans(e, t0, t1, t, sec, resets0, 2, dot);
    FieldsNow(cal);
    resets := resets0;
    var dayOfWeek := cal.tm_wday;
    var dayOfMonth := cal.tm_mday;
    if DayOk(e, Day(t)) {
      UnmovedBack(e, t0, t1, t, sec, resets, 2, dot);
    }
    var updateDayOfMonth;
    ghost var days;
    updateDayOfMonth, res, days := FindPrevDay(cal, e, dayOfMonth, dayOfWeek, resets, sec);
    if res != 0 {
      DaySure(e, t0, t1, t, sec, resets, dot);
      return;
    }
    DayFoundBack(e, t, cal.T(), sec, days);
    if dayOfMonth == updateDayOfMonth {
      resets := Push(resets, DayOfMonth);
    } else {
      DayMovesBack(e, t, cal.T(), sec);
      CallsNextBack(e, t0, t, sec, 2, dot, cal.T());
      RestartsBack(e, t0, t1, cal.T(), sec, resets, 2, dot);
      CallsAgain(e, dot, calls, cal.T());
      res := DoPrev(e, cal, dot, calls + [cal.T()]);
      if res != 0 {
        return;
      }
      ReachedBackFrom(e, t0, t1, t, sec, resets, 2, dot, cal.T());
    }
  }

  /** If the search cannot fail, there is a matching day after the epoch. */
  lemma DaySure(e: Expr, t0: int, t1: int, t: int, sec: bool, resets: seq<Field>, dot: int)
    requires BetweenBack(e, t0, t1, t, sec, resets, 2, dot) && (forall d | 0 <= d <= Day(t) :: !DayOk(e, d)) && t == t1
    ensures !SureBack(e, t0, dot)
  {
    hide StartedBack, Behind, BackLimit, Year, Matches, DayOk, ReachedBack, MonthOk;
    forall f | 0 <= f <= t ensures !Initial(e, f) {
      DayOfMinute(f);
      DaysInOrder(0, f);
      DaysInOrder(f, t);
    }
  }

  method MonthPart(e: Expr, cal: Tm, dot: int, resets: seq<Field>, ghost t0: int, ghost t1: int, ghost sec: bool, ghost calls: seq<int>) returns (res: int)
    requires Parsed(e) && DaysFoundBack(e) && Ends(e) && cal.Normal() && BetweenBack(e, t0, t1, cal.T(), sec, resets, 3, dot)
    requires calls != [] && calls[|calls| - 1] == t0 && Nested(e, dot, calls)
    modifies cal
    ensures cal.Normal() && (res == 0 ==> ReachedBack(e, t0, cal.T(), dot))
    ensures SureBack(e, t0, dot) ==> res == 0
    decreases t1 - BackLimit(dot), 0
  {
    hide PrevTime, ReachedBack, SureBack, Behind, StartedBack, Matches, Tm.T, BackLimit, Year, Mday, Mon, Sec, Min, Hour,
      Day, Wday, Lower, Value, BetweenBack, Backward, NoneDue, NextCall, DaysBack, DaysFoundBack, HighKeep, NoGap, DayOk;
    ghost var t := cal.T();
    BetweenBackMeans(e, t0, t1, t, sec, resets, 3, dot);
    FieldsNow(cal);
    var month := cal.tm_mon;
    ghost var u := t;
    if month in e.months {
      StaysBack(e.months, 12, Month, Years, t, resets);
      AllMatchBack(e, t0, t1, t, sec, resets, dot);
    } else {
      u := MonthChangesBack(e, t0, t1, t, sec, resets, dot);
    }
    var updateMonth;
    updateMonth, res := FindPrev(e.months, CRON_MAX_MONTHS, month, cal, Month, Years, resets);
    if res != 0 {
      return;
    }
    if month != updateMonth {
      FieldsNow(cal);
      LateEnough(u, dot, cal.tm_year);
      if (dot - cal.tm_year) % 0x1_0000_0000 > CRON_MAX_YEARS_DIFF {
        return -1;
      }
      BehindAgain(e, u, dot);
      BehindLimit(e, u, dot);
      CallsNextBack(e, t0, t, sec, 3, dot, u);
      CallsAgain(e, dot, calls, cal.T());
      res := DoPrev(e, cal, dot, calls + [cal.T()]);
    }
  }

  lemma LateEnough(u: int, dot: int, year: int)
    requires year == Year(Day(u)) - 1900
    ensures TooEarly(u, dot) <==> (dot - year) % 0x1_0000_0000 > CRON_MAX_YEARS_DIFF
  {
    hide Year, Day;
  }

  /** The self-call of a part is the next call. */
  lemma CallsNextBack(e: Expr, t0: int, t: int, sec: bool, n: nat, dot: int, u: int)
    requires n <= 3 && StartedBack(e, t0, t, sec) && Matches(e, t, n)
    requires n == 0 ==> Min(t) !in e.minutes && u == PrevTime(e.minutes, 60, Minute, Hours, t, Lower(sec, 0))
    requires n == 1 ==> Hour(t) !in e.hours && u == PrevTime(e.hours, 24, Hours, DayOfWeek, t, Lower(sec, 1))
    requires n == 2 ==> !DayOk(e, Day(t)) && PrevDayIs(e, t, u, sec)
    requires n == 3 ==> !MonthOk(e, Day(t)) && u == PrevTime(e.months, 12, Month, Years, t, Lower(sec, 3)) && !TooEarly(u, dot)
    ensures NextCall(e, t0, dot, u)
  {
    hide PrevTime, Sec, Min, Hour, DayOk, MonthOk, Day, TooEarly, PrevDayIs, HighKeep, NoFires, NoGap;
  }

  lemma AllMatchBack(e: Expr, t0: int, t1: int, t: int, sec: bool, resets: seq<Field>, dot: int)
    requires BetweenBack(e, t0, t1, t, sec, resets, 3, dot) && MonthOk(e, Day(t))
    ensures ReachedBack(e, t0, t, dot)
  {
    hide Behind, StartedBack, BackLimit, Year, Lower, SureBack, ReachedBack;
    if !ReachedBack(e, t0, t, dot) {
      DayOfMinute(t);
      ReachedBackAtOnce(e, t0, t, sec, dot);
    }
  }

  lemma ReachedBackAtOnce(e: Expr, t0: int, t: int, sec: bool, dot: int)
    requires StartedBack(e, t0, t, sec) && Fires(e, t) && (SureBack(e, t0, dot) ==> SureBack(e, t, dot))
    ensures ReachedBack(e, t0, t, dot)
  {
    hide HighKeep, PrevTime, ExactBack, DayOk, MonthOk, PrevDayIs, Initial, Year;
    DayOfMinute(t);
  }

  lemma MonthChangesBack(e: Expr, t0: int, t1: int, t: int, sec: bool, resets: seq<Field>, dot: int) returns (u: int)
    requires Parsed(e) && Ends(e) && BetweenBack(e, t0, t1, t, sec, resets, 3, dot) && !MonthOk(e, Day(t))
    ensures u == PrevTime(e.months, 12, Month, Years, t, resets) && u < t == t1
    ensures dot + 1880 < Year(Day(u)) <= dot + 1900
    ensures SureBack(e, t0, dot) ==> SureBack(e, u, dot) && Year(Day(u)) >= dot + 1896 && u >= 0
    ensures !TooEarly(u, dot) ==> forall v :: ReachedBack(e, u, v, dot) ==> ReachedBack(e, t0, v, dot)
  {
    hide PrevTime, ReachedBack, SureBack, Behind, BackLimit, Year, Mon, Sec, Lower, Backward, NextCall, TooEarly,
      HighKeep, NoGap, NoFires, DayOk, Ends;
    BetweenBackMeans(e, t0, t1, t, sec, resets, 3, dot);
    u := MonthMovesBack(e, t, sec);
    StillSureBack(e, t1, u, sec, dot);
    BackwardIsEarlier(e, t1, u, sec);
    AfterLimit(t1, dot);
    if !TooEarly(u, dot) {
      CallsNextBack(e, t0, t, sec, 3, dot, u);
      forall v | ReachedBack(e, u, v, dot) ensures ReachedBack(e, t0, v, dot) {
        ReachedBackToo(e, t0, t1, u, sec, v, dot);
      }
    }
  }

  lemma AfterLimit(t: int, dot: int)
    requires t >= BackLimit(dot)
    ensures Year(Day(t)) >= dot + 1894
  {
    hide MonthFirst, MonthOf;
    DaySplit(t);
    AfterMonth(Day(t), 12 * (dot + 1894) - 1);
  }

  // ---- cron_prev ------------------------------------------------------------------------

  /** The expression fires after the epoch and before the date, in its year or one of the four before it. */
  ghost predicate FiredSoon(e: Expr, date: int) {
    exists f :: 0 <= f < date && Fires(e, f) && Year(Day(f)) >= Year(Day(date)) - 4
  }

  /** The search from the date goes on before a time f at which the expression fires. */
  ghost predicate MissesBack(e: Expr, date: int) {
    var dot := Year(Day(date)) - 1900;
    exists u, f :: NextCall(e, date, dot, u) && f >= 0 && u < f < date && Fires(e, f) && Year(Day(f)) >= Year(Day(date)) - 4
  }

  /** cron_prev: the previous time at which the expression fires, or -1 */
  method CronPrev(e: Expr, date: int) returns (r: int)
    requires Parsed(e) && DaysFoundBack(e) && Ends(e)
    ensures r != CRON_INVALID_INSTANT ==> r < date && Fires(e, r)
    ensures r != CRON_INVALID_INSTANT && ExactBack(e) ==> IsPrev(e, date, r)
    ensures MissesBack(e, date) ==> r != CRON_INVALID_INSTANT && !IsPrev(e, date, r)
    ensures FiredSoon(e, date) ==> r != CRON_INVALID_INSTANT
    ensures OneDayFree(e) && Year(Day(date - 1)) >= 1972 ==> r != CRON_INVALID_INSTANT
  {
    hide ReachedBack, SureBack, Behind, Tm.T, Tm.Normal, Year, Fires, ExactBack, Parsed, DaysFoundBack, Ends, OneDayFree,
      AddTo, Day, Value, Sec, Min, Hour, Mday, Mon, Wday, MissesBack, FiredSoon, NextCall;
    DateOrder(e, date);
    MissedMeans(e, date);
    FiredMeans(e, date);
    var cal := new Tm(date);
    var original := cal.Mktime();
    if original == CRON_INVALID_INSTANT {
      return CRON_INVALID_INSTANT;
    }
    FieldsNow(cal);
    BehindAgain(e, date, cal.tm_year);
    SureIfFired(e, date, date, cal.tm_year);
    var res := DoPrev(e, cal, cal.tm_year, [cal.T()]);
    if res != 0 {
      return CRON_INVALID_INSTANT;
    }
    ReachedBackExactly(e, date, cal.T(), date, Year(Day(date)) - 1900);
    var calculated := cal.Mktime();
    if calculated == CRON_INVALID_INSTANT {
      return CRON_INVALID_INSTANT;
    }
    if calculated == original {
      res := cal.AddToField(Second, -1);
      AddSecond(date, -1);
      if res != 0 {
        return CRON_INVALID_INSTANT;
      }
      FieldsNow(cal);
      BehindAgain(e, date - 1, cal.tm_year);
      SureIfFired(e, date, date - 1, cal.tm_year);
      res := DoPrev(e, cal, cal.tm_year, [cal.T()]);
      if res != 0 {
        return CRON_INVALID_INSTANT;
      }
      ReachedBackExactly(e, date - 1, cal.T(), date, Year(Day(date - 1)) - 1900);
    }
    r := cal.Mktime();
  }

  /** From 1972 on, the expression fired before. */
  lemma DateOrder(e: Expr, date: int)
    requires Parsed(e) && Ends(e)
    ensures OneDayFree(e) && Year(Day(date - 1)) >= 1972 ==> FiredSoon(e, date)
  {
    hide Year, MonthOf, MonthFirst, Day, Ends, Fires, OneDayFree;
    if OneDayFree(e) && Year(Day(date - 1)) >= 1972 {
      DaysInOrder(date - 1, date);
      YearMonotone(Day(date - 1), Day(date));
      var d := DayAndMonthBefore(e, Day(date));
      var h := Member(e.hours, 0, 23);
      var m := Member(e.minutes, 0, 59);
      var s := LastSecond(e);
      var f := FinalAt(e, d, h, m, s);
      InDay(f, d);
      DayEnds(date);
      FinalFires(e, f, d);
      AfterEpoch(d);
      assert 0 <= f < date && Fires(e, f) && Year(Day(f)) >= Year(Day(date)) - 4;
    }
  }

  lemma FiredMeans(e: Expr, date: int)
    ensures FiredSoon(e, date) ==> date >= 1
  {
    hide Year, Fires;
  }

  lemma MissedMeans(e: Expr, date: int)
    ensures MissesBack(e, date) ==> FiredSoon(e, date)
  {
    hide Year, Fires, NextCall;
  }

  lemma SureIfFired(e: Expr, date: int, t: int, dot: int)
    requires Parsed(e) && date - 1 <= t <= date && dot + 1900 == Year(Day(t))
    ensures FiredSoon(e, date) ==> SureBack(e, t, dot)
  {
    hide Year, Day, Initial, MonthOk, Fires;
    if FiredSoon(e, date) {
      var f :| 0 <= f < date && Fires(e, f) && Year(Day(f)) >= Year(Day(date)) - 4;
      var g := FirstOfMinute(e, f);
      DaysInOrder(t, date);
      YearMonotone(Day(t), Day(date));
    }
  }

  lemma FirstOfMinute(e: Expr, f: int) returns (g: int)
    requires Parsed(e) && Fires(e, f)
    ensures g <= f && (f >= 0 ==> g >= 0) && Initial(e, g) && MonthOk(e, Day(g)) && Day(g) == Day(f)
  {
    hide Due, MonthOk;
    var s := FirstSecond(e);
    g := f / 60 * 60 + s;
    SecondParts(f);
    SecondOf(f / 60, s);
    DayOfMinute(f);
    DayOfMinute(g);
  }

  /** What a search that ended reached; if the search cannot fail, it is after the epoch. */
  lemma ReachedBackExactly(e: Expr, t0: int, v: int, date: int, dot: int)
    requires Parsed(e) && ReachedBack(e, t0, v, dot) && dot == Year(Day(t0)) - 1900 && date - 1 <= t0 <= date
    ensures v <= t0 && Fires(e, v) && (ExactBack(e) ==> forall t | v < t <= t0 :: !Fires(e, t))
    ensures SureBack(e, t0, dot) ==> v >= 0
    ensures t0 == date && MissesBack(e, date) ==> v < date && !IsPrev(e, date, v)
  {
    hide Fires, ExactBack, NextCall, Year, SureBack;
  }

  lemma AfterEpoch(day: int)
    requires Year(day) >= 1970
    ensures day >= 0
  {
    hide MonthOf, MonthFirst;
    if day < 0 {
      BeforeEpoch(day);
    }
  }

  lemma DayAndMonthBefore(e: Expr, day: int) returns (d: int)
    requires Parsed(e) && OneDayFree(e) && Ends(e)
    ensures d < day && DayOk(e, d) && MonthOk(e, d) && Year(d) >= Year(day) - 2
  {
    hide MonthOf, MonthFirst, Mday, Wday, Ends, MonthLength;
    var w := LastOfRun(e);
    var k := MonthOf(day) - MonthOf(day) % 12 - 12 + w;
    FloorIs(k, 12, MonthOf(day) / 12 - 1, w);
    MonthLengths(k);
    NextMonth(k);
    MonthsGrow(k + 1, MonthOf(day));
    if All(e.daysOfMonth, 1, 31) {
      var v := Member(e.daysOfWeek, 0, 6);
      var n := WeekdaySoon(MonthFirst(k), v);
      d := MonthFirst(k) + n;
      CarryAtMost(k, n + 1);
    } else {
      var x := DayOfRun(e, w, k);
      CarryAtMost(k, x);
      d := MonthFirst(k) + x - 1;
      assert 0 <= Wday(d) <= 6;
    }
  }

  /** A listed month before one that is not listed, or December. */
  lemma LastOfRun(e: Expr) returns (w: int)
    requires Parsed(e)
    ensures w in e.months && 0 <= w <= 11 && (w == 11 || w + 1 !in e.months)
  {
    w := Member(e.months, 0, 11);
    while w < 11 && w + 1 in e.months
      invariant w in e.months && 0 <= w <= 11
      decreases 11 - w
    {
      w := w + 1;
    }
  }

  lemma DayOfRun(e: Expr, w: int, k: int) returns (x: int)
    requires Parsed(e) && Ends(e) && w in e.months && 0 <= w <= 11 && (w == 11 || w + 1 !in e.months) && k % 12 == w
    ensures x in e.daysOfMonth && 1 <= x <= MonthLength(k)
  {
    x := Member(e.daysOfMonth, 1, 31);
    MonthAtLeast(k);
  }
}
