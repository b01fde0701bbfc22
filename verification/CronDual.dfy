/** The two searches undo each other. */
module CronDual {
  import opened Calendar
  import opened CronTime
  import opened CronExpr
  import opened CronGoals
  import opened CronSearch
  import opened CronPrev

  /** Going back from the next time leads to a time not after the date, to the date itself exactly if the
      expression fires there, and its next time is the same. */
  method NextAndBack(e: Expr, date: int) returns (next: int, prev: int)
    requires Exact(e) && ExactBack(e)
    ensures next != CRON_INVALID_INSTANT && prev != CRON_INVALID_INSTANT ==>
      prev <= date < next && IsNext(e, date, next) && IsNext(e, prev, next) && (prev == date <==> Fires(e, date))
    ensures date >= 0 && FiresSoon(e, date) ==> next != CRON_INVALID_INSTANT
    ensures date >= 0 && FiresSoon(e, date) && Fires(e, date) ==> prev == date
    ensures OneDayFree(e) && Year(Day(date)) >= 1972 && FiresSoon(e, date) ==> prev != CRON_INVALID_INSTANT
  {
    hide Fires, Exact, ExactBack, DaysFound, DaysFoundBack, OneDayFree, Misses, MissesBack, Year, FiresSoon, FiredSoon;
    ExactMeans(e);
    if Year(Day(date)) >= 1972 {
      AfterEpoch(Day(date));
      DayEnds(date);
    }
    next := CronNext(e, date);
    prev := CRON_INVALID_INSTANT;
    if next != CRON_INVALID_INSTANT {
      prev := CronPrev.CronPrev(e, next);
      DaysInOrder(date, next - 1);
      YearMonotone(Day(date), Day(next - 1));
      if FiresSoon(e, date) && date >= 0 && Fires(e, date) {
        FiredBefore(e, date, next);
      }
    }
  }

  lemma ExactMeans(e: Expr)
    requires Exact(e) && ExactBack(e)
    ensures Parsed(e) && DaysFound(e) && DaysFoundBack(e) && Ends(e) && LandsRight(e)
  {}

  lemma FiredBefore(e: Expr, date: int, next: int)
    requires IsNext(e, date, next) && FiresSoon(e, date) && Fires(e, date) && date >= 0
    ensures FiredSoon(e, next)
  {
    hide Fires, Year, Day;
    var f :| date < f && Fires(e, f) && Year(Day(f)) <= Year(Day(date)) + 4;
    DaysInOrder(next, f);
    YearMonotone(Day(next), Day(f));
  }

  /** And going on from the previous time leads to a time not before the date. */
  method PrevAndForth(e: Expr, date: int) returns (prev: int, next: int)
    requires Exact(e) && ExactBack(e)
    ensures prev != CRON_INVALID_INSTANT && next != CRON_INVALID_INSTANT ==>
      prev < date <= next && IsPrev(e, date, prev) && IsPrev(e, next, prev) && (next == date <==> Fires(e, date))
    ensures FiredSoon(e, date) ==> prev != CRON_INVALID_INSTANT
    ensures FiredSoon(e, date) && Fires(e, date) ==> next == date
  {
    hide Fires, Exact, ExactBack, DaysFound, DaysFoundBack, OneDayFree, Misses, MissesBack, Year, FiresSoon, FiredSoon;
    ExactMeans(e);
    prev := CronPrev.CronPrev(e, date);
    next := CRON_INVALID_INSTANT;
    if prev != CRON_INVALID_INSTANT {
      next := CronNext(e, prev);
      if FiredSoon(e, date) {
        FiresAgain(e, prev, date);
      }
    }
  }

  lemma FiresAgain(e: Expr, prev: int, date: int)
    requires IsPrev(e, date, prev) && FiredSoon(e, date)
    ensures prev >= 0 && (Fires(e, date) ==> FiresSoon(e, prev))
  {
    hide Fires, Year, Day;
    var f :| 0 <= f < date && Fires(e, f) && Year(Day(f)) >= Year(Day(date)) - 4;
    DaysInOrder(f, prev);
    YearMonotone(Day(f), Day(prev));
  }
}
