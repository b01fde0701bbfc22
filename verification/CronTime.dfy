/** The calendar that the cron search moves: broken-down time which is normalized after each change. */
module CronTime {
  import opened Calendar

  datatype Field = Second | Minute | Hours | DayOfWeek | DayOfMonth | Month | Years

  const CRON_INVALID_INSTANT: int := -1

  // ---- What the operations do to the time -------------------------------------------------

  /** The time with its month moved. The day of the month stays, and may carry into the next month. */
  function MoveMonths(t: int, n: int): int {
    t + (MonthFirst(MonthOf(Day(t)) + n) - MonthFirst(MonthOf(Day(t)))) * DAY
  }

  function Value(f: Field, t: int): (v: int)
    ensures f != Years && f != DayOfMonth ==> v >= 0
  {
    match f
    case Second => Sec(t)
    case Minute => Min(t)
    case Hours => Hour(t)
    case DayOfWeek => Wday(Day(t))
    case DayOfMonth => Mday(Day(t))
    case Month => Mon(Day(t))
    case Years => Year(Day(t)) - 1900
  }

  function AddTo(f: Field, t: int, n: int): int {
    match f
    case Second => t + n
    case Minute => t + 60 * n
    case Hours => t + 3600 * n
    case DayOfWeek => t + DAY * n
    case DayOfMonth => t + DAY * n
    case Month => MoveMonths(t, n)
    case Years => MoveMonths(t, 12 * n)
  }

  /** The day of the week cannot be set: it follows from the date. */
  function SetTo(f: Field, t: int, v: int): int {
    if f == DayOfWeek then t else AddTo(f, t, v - Value(f, t))
  }

  function Lowest(f: Field): int {
    if f == DayOfMonth then 1 else 0
  }

  /** The highest value of a field at that time. Years have none, and are left alone. */
  function Highest(f: Field, t: int): int {
    match f
    case Second => 59
    case Minute => 59
    case Hours => 23
    case DayOfWeek => 6
    case DayOfMonth => MonthLength(MonthOf(Day(t)))
    case Month => 11
    case Years => Value(Years, t)
  }

  function ResetAllMin(t: int, fields: seq<Field>): int
    decreases |fields|
  {
    hide SetTo;
    if fields == [] then t else ResetAllMin(SetTo(fields[0], t, Lowest(fields[0])), fields[1..])
  }

  function ResetAllMax(t: int, fields: seq<Field>): int
    decreases |fields|
  {
    hide SetTo, Highest;
    if fields == [] then t else ResetAllMax(SetTo(fields[0], t, Highest(fields[0], t)), fields[1..])
  }

  /** struct tm, for UTC */
  class Tm {
    var tm_sec: int
    var tm_min: int
    var tm_hour: int
    var tm_mday: int
    var tm_mon: int
    var tm_year: int
    var tm_wday: int

    /** gmtime */
    constructor (t: int)
      ensures Normal() && T() == t
    {
      tm_sec, tm_min, tm_hour, tm_mday, tm_mon, tm_year, tm_wday :=
        Sec(t), Min(t), Hour(t), Mday(Day(t)), Mon(Day(t)), Year(Day(t)) - 1900, Wday(Day(t));
      new;
      InstantOfFields(t);
      hide MonthFirst, MonthOf;
    }

    /** The time that the fields stand for. */
    ghost function T(): int
      reads this
    {
      Instant(tm_year + 1900, tm_mon, tm_mday, tm_hour, tm_min, tm_sec)
    }

    /** All fields are in range, and the day of the week is right. */
    ghost predicate Normal()
      reads this
    {
      && tm_sec == Sec(T()) && tm_min == Min(T()) && tm_hour == Hour(T()) && tm_mday == Mday(Day(T()))
      && tm_mon == Mon(Day(T())) && tm_year == Year(Day(T())) - 1900 && tm_wday == Wday(Day(T()))
    }

    /** cron_mktime: the time, and the fields normalized */
    method Mktime() returns (t: int)
      modifies this
      ensures Normal() && t == T() == old(T())
    {
      hide Sec, Min, Hour, Day, Mday, Mon, Year, Wday, Instant;
      t := TimeGm();
      InstantOfFields(t);
      tm_sec, tm_min, tm_hour, tm_mday, tm_mon, tm_year, tm_wday :=
        Sec(t), Min(t), Hour(t), Mday(Day(t)), Mon(Day(t)), Year(Day(t)) - 1900, Wday(Day(t));
    }

    method TimeGm() returns (t: int)
      ensures t == T()
    {
      t := Instant(tm_year + 1900, tm_mon, tm_mday, tm_hour, tm_min, tm_sec);
    }

    /** add_to_field */
    method AddToField(field: Field, val: int) returns (err: int)
      requires Normal()
      modifies this
      ensures Normal() && T() == AddTo(field, old(T()), val) && err == (if T() == CRON_INVALID_INSTANT then 1 else 0)
    {
      hide Value, AddTo, Sec, Min, Hour, Day, Mday, Mon, Year, Wday, Instant;
      ghost var t := T();
      match field {
        case Second => tm_sec := tm_sec + val;
        case Minute => tm_min := tm_min + val;
        case Hours => tm_hour := tm_hour + val;
        case DayOfWeek => tm_mday := tm_mday + val;
        case DayOfMonth => tm_mday := tm_mday + val;
        case Month => tm_mon := tm_mon + val;
        case Years => tm_year := tm_year + val;
      }
      AddToIs(field, t, val);
      var res := Mktime();
      err := if res == CRON_INVALID_INSTANT then 1 else 0;
    }

    /** set_field */
    method SetField(field: Field, val: int) returns (err: int)
      requires Normal()
      modifies this
      ensures Normal() && T() == SetTo(field, old(T()), val) && err == (if T() == CRON_INVALID_INSTANT then 1 else 0)
    {
      hide Value, AddTo, Sec, Min, Hour, Day, Mday, Mon, Year, Wday, Instant;
      ghost var t := T();
      match field {
        case Second => tm_sec := val;
        case Minute => tm_min := val;
        case Hours => tm_hour := val;
        case DayOfWeek => tm_wday := val;
        case DayOfMonth => tm_mday := val;
        case Month => tm_mon := val;
        case Years => tm_year := val;
      }
      AddToIs(field, t, val - Value(field, t));
      ValueIs(field, t);
      var res := Mktime();
      err := if res == CRON_INVALID_INSTANT then 1 else 0;
    }
  }

  /** Adding to a field of a time adds its unit, or moves its month. */
  lemma AddToIs(f: Field, t: int, n: int)
    ensures AddTo(f, t, n) == Instant(
      Year(Day(t)) + (if f == Years then n else 0), Mon(Day(t)) + (if f == Month then n else 0),
      Mday(Day(t)) + (if f == DayOfWeek || f == DayOfMonth then n else 0), Hour(t) + (if f == Hours then n else 0),
      Min(t) + (if f == Minute then n else 0), Sec(t) + (if f == Second then n else 0))
  {
    InstantOfFields(t);
    hide MonthFirst, Sec, Min, Hour, Day, Mday;
  }

  lemma ValueIs(f: Field, t: int)
    ensures Value(f, t) == match f
      case Second => Sec(t)
      case Minute => Min(t)
      case Hours => Hour(t)
      case DayOfWeek => Wday(Day(t))
      case DayOfMonth => Mday(Day(t))
      case Month => Mon(Day(t))
      case Years => Year(Day(t)) - 1900
  {}
}
