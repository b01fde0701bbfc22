/** The Gregorian calendar in UTC, as gmtime and timegm have it. Times are seconds since the epoch. */
module Calendar {

  predicate IsLeap(y: int) {
    y % 4 == 0 && (y % 100 != 0 || y % 400 == 0)
  }

  /** Days before a month (0 is January) in a common year. */
  function DaysBefore(m: int): int
    requires 0 <= m < 12
  {
    [0, 31, 59, 90, 120, 151, 181, 212, 243, 273, 304, 334][m]
  }

  /** First day of a year, in days since the epoch (section 4.16 of POSIX.1-2017 Base Definitions, with
      tm_year == y - 1900). */
  function YearFirst(y: int): int {
    365 * (y - 1970) + (y - 1969) / 4 - (y - 1901) / 100 + (y - 1601) / 400
  }

  /** Months are counted from January of year 0. This is the first day of month k. */
  function MonthFirst(k: int): int {
    YearFirst(k / 12) + DaysBefore(k % 12) + (if k % 12 >= 2 && IsLeap(k / 12) then 1 else 0)
  }

  function MonthLength(k: int): int {
    var m := k % 12;
    if m == 1 then (if IsLeap(k / 12) then 29 else 28)
    else if m == 3 || m == 5 || m == 8 || m == 10 then 30
    else 31
  }

  /** Months of 31 and 30 days take turns, but July and August both have 31. */
  lemma MonthRule(k: int)
    ensures var m := k % 12 + 1; MonthLength(k) == if m == 2 then (if IsLeap(k / 12) then 29 else 28) else 30 + (m + m / 8) % 2
  {}

  lemma YearLength(y: int)
    ensures YearFirst(y + 1) == YearFirst(y) + (if IsLeap(y) then 366 else 365)
  {
    FloorStep(y - 1969, 4);
    FloorStep(y - 1901, 100);
    FloorStep(y - 1601, 400);
  }

  lemma FloorStep(a: int, d: int)
    requires d > 1
    ensures (a + 1) / d == a / d + (if (a + 1) % d == 0 then 1 else 0)
  {
    var q, r := a / d, a % d;
    assert a == d * q + r;
    if r == d - 1 {
      assert a + 1 == d * (q + 1);
      FloorIs(a + 1, d, q + 1, 0);
    } else {
      FloorIs(a + 1, d, q, r + 1);
    }
  }

  lemma FloorIs(a: int, d: int, q: int, r: int)
    requires d > 0 && a == d * q + r && 0 <= r < d
    ensures a / d == q && a % d == r
  {
    var q', r' := a / d, a % d;
    assert a == d * q' + r';
    if q' > q {
      Scale(d, q + 1, q');
    } else if q' < q {
      Scale(d, q' + 1, q);
    }
  }

  lemma Scale(d: int, a: int, b: int)
    requires d > 0 && a <= b
    ensures d * a <= d * b
  {}

  /** The formula adds up: each month is as long as it should be. */
  lemma NextMonth(k: int)
    ensures MonthFirst(k + 1) == MonthFirst(k) + MonthLength(k)
  {
    if k % 12 == 11 {
      assert (k + 1) / 12 == k / 12 + 1 && (k + 1) % 12 == 0;
      YearLength(k / 12);
    } else {
      assert (k + 1) / 12 == k / 12 && (k + 1) % 12 == k % 12 + 1;
    }
  }

  lemma {:induction false} MonthsGrow(a: int, b: int)
    requires a <= b
    ensures MonthFirst(a) + 28 * (b - a) <= MonthFirst(b) <= MonthFirst(a) + 31 * (b - a)
    decreases b - a
  {
    hide MonthFirst;
    if a < b {
      MonthsGrow(a, b - 1);
      NextMonth(b - 1);
    }
  }

  // ---- From days to dates -----------------------------------------------------------------

  predicate InMonth(day: int, k: int) {
    MonthFirst(k) <= day < MonthFirst(k + 1)
  }

  /** The month of a day. */
  function MonthOf(day: int): (k: int)
    ensures InMonth(day, k)
  {
    EarlyEnough(day);
    SearchMonth(day, Early(day))
  }

  /** A month that does not begin after the day. */
  function Early(day: int): int {
    if day >= 0 then 12 * 1970 else 12 * 1970 + day
  }

  lemma EarlyEnough(day: int)
    ensures MonthFirst(Early(day)) <= day
  {
    assert MonthFirst(12 * 1970) == 0;
    if day < 0 {
      MonthsGrow(Early(day), 12 * 1970);
    }
  }

  function SearchMonth(day: int, k: int): (r: int)
    requires MonthFirst(k) <= day
    ensures InMonth(day, r)
    decreases day - MonthFirst(k)
  {
    NextMonth(k);
    hide MonthFirst;
    if day < MonthFirst(k + 1) then k else SearchMonth(day, k + 1)
  }

  lemma MonthUnique(day: int, k: int)
    requires InMonth(day, k)
    ensures MonthOf(day) == k
  {
    hide MonthFirst, MonthOf;
    var r := MonthOf(day);
    if r < k {
      MonthsGrow(r + 1, k);
    } else if k < r {
      MonthsGrow(k + 1, r);
    }
  }

  lemma MonthMonotone(a: int, b: int)
    requires a <= b
    ensures MonthOf(a) <= MonthOf(b)
  {
    hide MonthFirst, MonthOf;
    if MonthOf(b) < MonthOf(a) {
      MonthsGrow(MonthOf(b) + 1, MonthOf(a));
    }
  }

  // ---- Fields of a time --------------------------------------------------------------------

  const DAY: int := 86400

  function Sec(t: int): (r: int)
    ensures 0 <= r < 60
  {
    t % 60
  }

  function Min(t: int): (r: int)
    ensures 0 <= r < 60
  {
    t / 60 % 60
  }

  function Hour(t: int): (r: int)
    ensures 0 <= r < 24
  {
    t / 3600 % 24
  }

  function Day(t: int): int {
    t / DAY
  }

  /** The day of the week. The epoch was a Thursday. */
  function Wday(day: int): (r: int)
    ensures 0 <= r < 7
  {
    (day + 4) % 7
  }

  function Mday(day: int): int {
    day - MonthFirst(MonthOf(day)) + 1
  }

  function Mon(day: int): (r: int)
    ensures 0 <= r < 12
  {
    MonthOf(day) % 12
  }

  function Year(day: int): int {
    MonthOf(day) / 12
  }

  /** The time of fields that need not be in range; month may carry into year, and so on. */
  function Instant(year: int, mon: int, mday: int, hour: int, min: int, sec: int): int {
    (MonthFirst(12 * year + mon) + mday - 1) * DAY + hour * 3600 + min * 60 + sec
  }

  lemma SplitTime(t: int)
    ensures t == Day(t) * DAY + Hour(t) * 3600 + Min(t) * 60 + Sec(t)
  {
    assert t / 3600 == t / 60 / 60;
    assert t / DAY == t / 3600 / 24;
  }

  lemma InstantOfFields(t: int)
    ensures Instant(Year(Day(t)), Mon(Day(t)), Mday(Day(t)), Hour(t), Min(t), Sec(t)) == t
  {
    SplitTime(t);
    hide MonthFirst;
  }

  lemma MdayRange(day: int)
    ensures 1 <= Mday(day) <= MonthLength(MonthOf(day)) <= 31
  {
    NextMonth(MonthOf(day));
    hide MonthFirst, MonthOf;
  }

  /** Of two months in a row, one has 31 days. */
  lemma LongMonth(k: int)
    ensures MonthLength(k) == 31 || MonthLength(k + 1) == 31
  {}

  // ---- Days of the week of a year --------------------------------------------------------

  /** A common year that begins on a given day of the week. */
  lemma CommonYear(r: int) returns (y: int)
    requires 0 <= r < 7
    ensures 2001 <= y <= 2010 && !IsLeap(y) && YearFirst(y) % 7 == r
  {
    y := [2009, 2010, 2005, 2006, 2001, 2002, 2003][r];
    FirstDays();
  }

  lemma FirstDays()
    ensures YearFirst(2009) % 7 == 0 && YearFirst(2010) % 7 == 1 && YearFirst(2005) % 7 == 2 && YearFirst(2006) % 7 == 3
    ensures YearFirst(2001) % 7 == 4 && YearFirst(2002) % 7 == 5 && YearFirst(2003) % 7 == 6
  {}

  lemma CommonFirst(y: int, m: int)
    requires !IsLeap(y) && 0 <= m <= 11
    ensures MonthFirst(12 * y + m) == YearFirst(y) + DaysBefore(m)
  {
    FloorIs(12 * y + m, 12, y, m);
    hide YearFirst, IsLeap;
  }

  lemma WeekdayIs(day: int, first: int, before: int, v: int)
    requires 0 <= v <= 6 && first % 7 == (v - 4 - 30 - before) % 7 && day == first + before + 30
    ensures Wday(day) == v
  {
    var q, r := first / 7, (v - 4 - 30 - before) / 7;
    assert day + 4 == 7 * (q - r) + v;
    FloorIs(day + 4, 7, q - r, v);
  }

  lemma MonthsOf2001()
    ensures MonthFirst(24013) == 11354 && MonthFirst(24014) == 11382 && MonthFirst(24015) == 11413 && MonthFirst(24016) == 11443
  {
    February2001();
    LengthsOf2001();
    hide MonthFirst, MonthLength;
    NextMonth(24013);
    NextMonth(24014);
    NextMonth(24015);
  }

  lemma February2001()
    ensures MonthFirst(24013) == 11354
  {}

  lemma LengthsOf2001()
    ensures MonthLength(24013) == 28 && MonthLength(24014) == 31 && MonthLength(24015) == 30
  {}
}
