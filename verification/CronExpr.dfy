/** Parsed cron expressions, and when they fire. */
module CronExpr {
  import opened Calendar

  /** The bit arrays of cron_expr, as sets of the bits set. Months are 0 to 11, Sunday is 0. */
  datatype Expr = Expr(seconds: set<int>, minutes: set<int>, hours: set<int>, daysOfWeek: set<int>, daysOfMonth: set<int>, months: set<int>)

  predicate Within(s: set<int>, lo: int, hi: int) {
    (exists x :: x in s) && forall x <- s :: lo <= x <= hi
  }

  /** What cron_parse_expr leaves if it reports no error: no field is empty. */
  predicate Parsed(e: Expr) {
    && Within(e.seconds, 0, 59) && Within(e.minutes, 0, 59) && Within(e.hours, 0, 23)
    && Within(e.daysOfWeek, 0, 6) && Within(e.daysOfMonth, 1, 31) && Within(e.months, 0, 11)
  }

  predicate All(s: set<int>, lo: int, hi: int) {
    forall x | lo <= x <= hi :: x in s
  }

  predicate OneDayFree(e: Expr) {
    All(e.daysOfMonth, 1, 31) || All(e.daysOfWeek, 0, 6)
  }

  /** Changing the month cannot carry over to another one, or never happens. */
  predicate SafeMonths(e: Expr) {
    All(e.months, 0, 11) || (All(e.daysOfWeek, 0, 6) && Within(e.daysOfMonth, 1, 28))
  }

  predicate NoGap(s: set<int>) {
    forall a, c, b | a in s && c in s && a < b < c :: b in s
  }

  /** Nothing but the seconds has to move. */
  predicate Open(e: Expr) {
    && All(e.minutes, 0, 59) && All(e.hours, 0, 23) && All(e.daysOfMonth, 1, 31) && All(e.daysOfWeek, 0, 6) && All(e.months, 0, 11)
  }

  /** Seconds that were moved may be kept. */
  predicate SecondsRight(e: Expr) {
    NoGap(e.seconds) || Open(e)
  }

  /** Length of a month in a common year. */
  function CommonLength(m: int): int {
    if m == 1 then 28 else if m == 3 || m == 5 || m == 8 || m == 10 then 30 else 31
  }

  /** A month of length n has all of the listed days, or none. */
  predicate AllOrNone(e: Expr, n: int) {
    (forall d <- e.daysOfMonth :: d <= n) || (forall d <- e.daysOfMonth :: d > n)
  }

  /** The month may be set before the day: a listed month behind one that is not listed has all of the
      listed days or none, in common years and in leap years. */
  predicate LandsRight(e: Expr) {
    forall k | 1 <= k <= 11 && k in e.months && k - 1 !in e.months :: AllOrNone(e, CommonLength(k)) && (k == 1 ==> AllOrNone(e, 29))
  }

  /** Month k has a day d, if only in leap years. */
  predicate HasDay(k: int, d: int) {
    d <= if k == 1 then 29 else CommonLength(k)
  }

  /** Some listed month has a listed day. */
  predicate CanFire(e: Expr) {
    exists k, d :: k in e.months && d in e.daysOfMonth && HasDay(k, d)
  }

  /** Where the month after a listed one is not listed, no listed day is missing from the listed month. */
  predicate Ends(e: Expr) {
    forall w | 0 <= w <= 10 && w in e.months && w + 1 !in e.months :: Within(e.daysOfMonth, 1, CommonLength(w))
  }

  lemma SafeLands(e: Expr)
    requires Parsed(e) && SafeMonths(e)
    ensures LandsRight(e)
  {
    if !All(e.months, 0, 11) {
      assert AllOrNone(e, 28) && AllOrNone(e, 29) && AllOrNone(e, 30) && AllOrNone(e, 31);
    }
  }

  predicate DayOk(e: Expr, day: int) {
    Mday(day) in e.daysOfMonth && Wday(day) in e.daysOfWeek
  }

  /** A matching day n days later, or nothing for 366 days. */
  ghost predicate DaysOn(e: Expr, d: int, n: int) {
    0 <= n <= 366 && (forall x | d <= x < d + n :: !DayOk(e, x)) && (DayOk(e, d + n) || n == 366)
  }

  /** A matching day n days earlier, or nothing for 366 days. */
  ghost predicate DaysBack(e: Expr, d: int, n: int) {
    0 <= n <= 366 && (forall x | d - n < x <= d :: !DayOk(e, x)) && (DayOk(e, d - n) || n == 366)
  }

  /** From a day that does not match, the next one that does is found, and has another number. */
  ghost predicate DaysFound(e: Expr) {
    forall d, n | !DayOk(e, d) && DaysOn(e, d, n) :: DayOk(e, d + n) && Mday(d + n) != Mday(d)
  }

  ghost predicate DaysFoundBack(e: Expr) {
    forall d, n | !DayOk(e, d) && DaysBack(e, d, n) :: DayOk(e, d - n) && Mday(d - n) != Mday(d)
  }

  /** The next matching day, or the one after a year without any, has the same number. */
  ghost predicate Trap(e: Expr, d: int, n: int) {
    !DayOk(e, d) && DaysOn(e, d, n) && Mday(d + n) == Mday(d)
  }

  /** Such a day in a listed month is taken for a match, at its first second or at one that was kept. That does
      no harm if it is one. */
  ghost predicate Sound(e: Expr) {
    forall d, n | Trap(e, d, n) && MonthOk(e, d + n) :: DayOk(e, d + n) && 0 in e.hours && 0 in e.minutes && 0 in e.seconds
  }

  /** The expressions for which the search forward is exact. */
  ghost predicate Exact(e: Expr) {
    Parsed(e) && DaysFound(e) && SecondsRight(e) && LandsRight(e)
  }

  /** The expressions for which the search back is exact. */
  ghost predicate ExactBack(e: Expr) {
    Parsed(e) && DaysFoundBack(e) && SecondsRight(e) && Ends(e)
  }

  predicate MonthOk(e: Expr, day: int) {
    Mon(day) in e.months
  }

  /** Minute j since the epoch matches, but for its month. */
  predicate Due(e: Expr, j: int) {
    j % 60 in e.minutes && j / 60 % 24 in e.hours && DayOk(e, j / 1440)
  }

  /** The expression fires at that time: all fields match. */
  predicate Fires(e: Expr, t: int) {
    Sec(t) in e.seconds && Due(e, t / 60) && MonthOk(e, Day(t))
  }

  predicate FiresIn(e: Expr, j: int) {
    Due(e, j) && MonthOk(e, j / 1440)
  }

  /** The least firing time after a date. */
  ghost predicate IsNext(e: Expr, date: int, r: int) {
    date < r && Fires(e, r) && forall t | date < t < r :: !Fires(e, t)
  }

  /** The greatest firing time before a date. */
  ghost predicate IsPrev(e: Expr, date: int, r: int) {
    r < date && Fires(e, r) && forall t | r < t < date :: !Fires(e, t)
  }

  lemma DayOfMinute(t: int)
    ensures Day(t) == t / 60 / 1440 && Min(t) == t / 60 % 60 && Hour(t) == t / 60 / 60 % 24
  {}

  // ---- Days in demand --------------------------------------------------------------------

  lemma Member(s: set<int>, lo: int, hi: int) returns (x: int)
    requires Within(s, lo, hi)
    ensures x in s && lo <= x <= hi
  {
    x :| x in s;
  }

  lemma WeekdaySoon(day: int, w: int) returns (n: int)
    requires 0 <= w <= 6
    ensures 0 <= n <= 6 && Wday(day + n) == w
  {
    n := (w - Wday(day)) % 7;
  }

  lemma WeekdayBefore(day: int, w: int) returns (n: int)
    requires 0 <= w <= 6
    ensures 0 <= n <= 6 && Wday(day - n) == w
  {
    var m := WeekdaySoon(day - 6, w);
    n := 6 - m;
  }

  /** A matching day comes soon: within a week, or within three months. */
  lemma DaySoon(e: Expr, day: int) returns (n: int)
    requires Parsed(e) && OneDayFree(e)
    ensures 0 <= n <= 92 && DayOk(e, day + n)
  {
    hide MonthFirst, MonthOf, MonthLength, Mday, Wday;
    if All(e.daysOfMonth, 1, 31) {
      var w := Member(e.daysOfWeek, 0, 6);
      n := WeekdaySoon(day, w);
      MdayRange(day + n);
    } else {
      var d := Member(e.daysOfMonth, 1, 31);
      n := DateSoon(day, d);
      assert 0 <= Wday(day + n) <= 6;
    }
  }

  lemma DateSoon(day: int, d: int) returns (n: int)
    requires 1 <= d <= 31
    ensures 0 <= n <= 92 && Mday(day + n) == d
  {
    hide MonthFirst, MonthOf, MonthLength;
    var k := MonthOf(day) + 1;
    MdayRange(day);
    NextMonth(MonthOf(day));
    NextMonth(k);
    NextMonth(k + 1);
    LongMonth(k);
    MonthLengths(k);
    MonthLengths(k + 1);
    MonthLengths(k - 1);
    var m := if d <= MonthLength(k) then k else k + 1;
    n := MonthFirst(m) + d - 1 - day;
    MonthUnique(day + n, m);
  }

  lemma MonthLengths(k: int)
    ensures 28 <= MonthLength(k) <= 31
  {}

  /** A day before that matches, likewise. */
  lemma DayBefore(e: Expr, day: int) returns (n: int)
    requires Parsed(e) && OneDayFree(e)
    ensures 0 <= n <= 92 && DayOk(e, day - n)
  {
    hide MonthFirst, MonthOf, MonthLength, Mday, Wday;
    if All(e.daysOfMonth, 1, 31) {
      var w := Member(e.daysOfWeek, 0, 6);
      n := WeekdayBefore(day, w);
      MdayRange(day - n);
    } else {
      var d := Member(e.daysOfMonth, 1, 31);
      n := DateBefore(day, d);
      assert 0 <= Wday(day - n) <= 6;
    }
  }

  lemma DateBefore(day: int, d: int) returns (n: int)
    requires 1 <= d <= 31
    ensures 0 <= n <= 92 && Mday(day - n) == d
  {
    hide MonthFirst, MonthOf, MonthLength;
    var k := MonthOf(day) - 1;
    MdayRange(day);
    NextMonth(k);
    NextMonth(k - 1);
    LongMonth(k - 1);
    MonthLengths(k);
    MonthLengths(k - 1);
    var m := if d <= MonthLength(k) then k else k - 1;
    NextMonth(k + 1);
    MonthLengths(k + 1);
    n := day - (MonthFirst(m) + d - 1);
    assert k - 1 + 1 == k;
    MonthUnique(day - n, m);
  }

  // ---- Days that are found -----------------------------------------------------------------

  /** They are, and have another number, if one of the day fields is free. */
  lemma FreeDaysFound(e: Expr)
    requires Parsed(e) && OneDayFree(e)
    ensures DaysFound(e)
  {
    hide Mday, Wday, MonthOf, MonthFirst;
    forall d, n | !DayOk(e, d) && DaysOn(e, d, n) ensures DayOk(e, d + n) && Mday(d + n) != Mday(d) {
      var k := DaySoon(e, d);
      if All(e.daysOfMonth, 1, 31) {
        MdayRange(d);
        MdayRange(d + n);
        var m := WeekdaySoon(d, Wday(d + n));
        MdayRange(d + m);
        assert !DayOk(e, d + m) || n <= m;
        DaysApart(d, d + n);
      } else {
        assert 0 <= Wday(d) <= 6;
      }
    }
  }

  lemma FreeDaysFoundBack(e: Expr)
    requires Parsed(e) && OneDayFree(e)
    ensures DaysFoundBack(e)
  {
    hide Mday, Wday, MonthOf, MonthFirst;
    forall d, n | !DayOk(e, d) && DaysBack(e, d, n) ensures DayOk(e, d - n) && Mday(d - n) != Mday(d) {
      var k := DayBefore(e, d);
      if All(e.daysOfMonth, 1, 31) {
        MdayRange(d);
        MdayRange(d - n);
        var m := WeekdayBefore(d, Wday(d - n));
        MdayRange(d - m);
        assert !DayOk(e, d - m) || n <= m;
        DaysApart(d - n, d);
      } else {
        assert 0 <= Wday(d) <= 6;
      }
    }
  }

  lemma DaysApart(a: int, b: int)
    requires a < b < a + 28
    ensures Mday(a) != Mday(b)
  {
    hide MonthOf, MonthFirst;
    MonthMonotone(a, b);
    var k := MonthOf(a);
    if MonthOf(b) > k {
      MonthsGrow(k, MonthOf(b));
    }
  }

  lemma FoundSound(e: Expr)
    requires DaysFound(e)
    ensures Sound(e)
  {}

  lemma DayAhead(e: Expr, day: int) returns (n: int)
    requires DaysFound(e)
    ensures 0 <= n <= 366 && DayOk(e, day + n)
  {
    hide DayOk, Mday;
    n := 0;
    while n < 366 && !DayOk(e, day + n)
      invariant 0 <= n <= 366 && forall x | day <= x < day + n :: !DayOk(e, x)
    {
      n := n + 1;
    }
    assert DaysOn(e, day, n);
  }

  lemma DayBehind(e: Expr, day: int) returns (n: int)
    requires DaysFoundBack(e)
    ensures 0 <= n <= 366 && DayOk(e, day - n)
  {
    hide DayOk, Mday;
    n := 0;
    while n < 366 && !DayOk(e, day - n)
      invariant 0 <= n <= 366 && forall x | day - n < x <= day :: !DayOk(e, x)
    {
      n := n + 1;
    }
    assert DaysBack(e, day, n);
  }
}
