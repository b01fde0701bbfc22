/** The fields of a cron expression, from their comma separated parts. Numbers are given as values. */
module CronFields {
  import opened Calendar
  import opened CronExpr

  datatype Option<+T> = None | Some(value: T)

  /** What stands before a slash, or alone: a star, a number or a range. */
  datatype Span = Star | Number(n: nat) | FromTo(lo: nat, hi: nat)

  datatype Part = Part(span: Span, step: Option<nat>)

  function Low(s: Span, min: nat): nat {
    match s
    case Star => min
    case Number(n) => n
    case FromTo(lo, _) => lo
  }

  /** The last value of a part: a step without a range goes on to the end of the field. */
  function High(p: Part, max: nat): int {
    match p.span
    case Star => max - 1
    case Number(n) => if p.step.Some? then max - 1 else n
    case FromTo(_, hi) => hi
  }

  function Step(p: Part): nat {
    if p.step.Some? then p.step.value else 1
  }

  predicate SpanOk(s: Span, min: nat, max: nat) {
    match s
    case Star => true
    case Number(n) => min <= n < max
    case FromTo(lo, hi) => min <= lo <= hi < max
  }

  predicate PartOk(p: Part, min: nat, max: nat) {
    SpanOk(p.span, min, max) && (p.step.Some? ==> p.step.value > 0)
  }

  /** A field has a part, and all its parts are good. */
  predicate FieldOk(parts: seq<Part>, min: nat, max: nat) {
    parts != [] && forall p <- parts :: PartOk(p, min, max)
  }

  /** A part stands for every Step-th value from its first one on. */
  predicate Hit(p: Part, min: nat, max: nat, x: int) {
    Step(p) > 0 && Low(p.span, min) <= x <= High(p, max) && (x - Low(p.span, min)) % Step(p) == 0
  }

  predicate HitByOne(parts: seq<Part>, min: nat, max: nat, x: int) {
    exists p <- parts :: Hit(p, min, max, x)
  }

  function Hits(parts: seq<Part>, min: nat, max: nat): set<int> {
    set x: int | 0 <= x < max && HitByOne(parts, min, max, x)
  }

  /** get_range */
  method GetRange(s: Span, min: nat, max: nat) returns (ok: bool, lo: nat, hi: nat)
    requires min < max
    ensures ok <==> SpanOk(s, min, max)
    ensures ok ==> lo == Low(s, min) && hi == High(Part(s, None), max) && min <= lo <= hi < max
  {
    match s {
      case Star => lo, hi := min, max - 1;
      case Number(n) => lo, hi := n, n;
      case FromTo(a, b) => lo, hi := a, b;
    }
    if lo >= max || hi >= max {
      return false, 0, 0;
    }
    if lo < min || hi < min {
      return false, 0, 0;
    }
    ok := lo <= hi;
  }

  /** set_number_hits: an error, or the values of all parts added to the target */
  method SetNumberHits(parts: seq<Part>, target0: set<int>, min: nat, max: nat) returns (ok: bool, target: set<int>)
    requires min < max
    ensures ok <==> FieldOk(parts, min, max)
    ensures ok ==> target == target0 + Hits(parts, min, max)
  {
    target := target0;
    if parts == [] {
      return false, target;
    }
    var i := 0;
    while i < |parts|
      invariant 0 <= i <= |parts| && forall p <- parts[..i] :: PartOk(p, min, max)
      invariant target == target0 + Hits(parts[..i], min, max)
    {
      var p := parts[i];
      assert parts[..i + 1] == parts[..i] + [p];
      ghost var before := target;
      var lo, hi;
      ok, lo, hi := GetRange(p.span, min, max);
      if !ok {
        assert p in parts;
        return;
      }
      if p.step.Some? && !p.span.FromTo? {
        hi := max - 1;
      }
      if p.step.Some? && p.step.value == 0 {
        assert p in parts;
        return false, target;
      }
      target := SetBits(target, lo, hi, Step(p));
      MoreHits(parts[..i], p, min, max, lo, hi);
      i := i + 1;
    }
    assert parts[..i] == parts;
    ok := true;
  }

  predicate StepOf(lo: int, delta: nat, x: int)
    requires delta > 0
  {
    (x - lo) % delta == 0
  }

  /** The values from lo to hi in steps. */
  function Steps(lo: int, hi: int, delta: nat): set<int>
    requires delta > 0
  {
    set x: int | lo <= x <= hi && StepOf(lo, delta, x)
  }

  method SetBits(target0: set<int>, lo: nat, hi: nat, delta: nat) returns (target: set<int>)
    requires delta > 0
    ensures target == target0 + Steps(lo, hi, delta)
  {
    hide StepOf;
    target := target0;
    var i := lo;
    StepStart(lo, delta);
    while i <= hi
      invariant i >= lo && StepOf(lo, delta, i)
      invariant target == target0 + (set x: int | lo <= x <= hi && x < i && StepOf(lo, delta, x))
      decreases hi - i
    {
      StepNext(lo, delta, i);
      target := target + {i};
      i := i + delta;
    }
  }

  lemma StepStart(lo: int, delta: nat)
    requires delta > 0
    ensures StepOf(lo, delta, lo)
  {}

  /** No value lies between two steps. */
  lemma StepNext(lo: int, delta: nat, i: int)
    requires delta > 0 && StepOf(lo, delta, i)
    ensures StepOf(lo, delta, i + delta) && forall x | i < x < i + delta :: !StepOf(lo, delta, x)
  {
    var k := (i - lo) / delta;
    assert i - lo == delta * k;
    FloorIs(i + delta - lo, delta, k + 1, 0);
    forall x | i < x < i + delta ensures !StepOf(lo, delta, x) {
      FloorIs(x - lo, delta, k, x - i);
    }
  }

  lemma MoreHits(parts: seq<Part>, p: Part, min: nat, max: nat, lo: nat, hi: nat)
    requires PartOk(p, min, max) && min <= lo < max && lo == Low(p.span, min) && hi == High(p, max) && hi < max
    ensures Hits(parts + [p], min, max) == Hits(parts, min, max) + Steps(lo, hi, Step(p))
  {
    forall x ensures x in Hits(parts + [p], min, max) <==> x in Hits(parts, min, max) || x in Steps(lo, hi, Step(p)) {
      assert (parts + [p])[|parts|] == p;
      if x in Steps(lo, hi, Step(p)) {
        assert p in parts + [p] && Hit(p, min, max, x);
      }
      if HitByOne(parts, min, max, x) {
        var q :| q in parts && Hit(q, min, max, x);
        assert q in parts + [p];
      }
    }
  }

  ghost predicate MonthsOf(hits: set<int>, months: set<int>) {
    forall x :: x in months <==> x + 1 in hits
  }

  ghost predicate WeekdaysOf(hits: set<int>, days: set<int>) {
    forall x :: x in days <==> (x in hits && x != 7) || (x == 0 && 7 in hits)
  }

  /** set_months: months are counted from 1 in an expression, and from 0 in the bit array. */
  method SetMonths(parts: seq<Part>) returns (ok: bool, target: set<int>)
    ensures ok <==> FieldOk(parts, 1, 13)
    ensures ok ==> MonthsOf(Hits(parts, 1, 13), target)
  {
    ok, target := SetNumberHits(parts, {}, 1, 13);
    ghost var hits := target;
    if ok {
      HitsInside(parts, 1, 13);
    }
    var i := 1;
    while i <= 12
      invariant 1 <= i <= 13 && (ok ==> Rotated(hits, target, i))
    {
      if i in target {
        target := target + {i - 1};
        target := target - {i};
      }
      i := i + 1;
    }
  }

  /** The bits below i were moved down by one. */
  ghost predicate Rotated(hits: set<int>, target: set<int>, i: int) {
    forall x :: x in target <==> RotatedBit(hits, i, x)
  }

  ghost predicate RotatedBit(hits: set<int>, i: int, x: int) {
    if x < i - 1 then x + 1 in hits else x >= i && x in hits
  }

  /** set_days_of_week: Sunday is 0 or 7 */
  method SetDaysOfWeek(parts: seq<Part>) returns (ok: bool, target: set<int>)
    ensures ok <==> FieldOk(parts, 0, 8)
    ensures ok ==> WeekdaysOf(Hits(parts, 0, 8), target)
  {
    ok, target := SetNumberHits(parts, {}, 0, 8);
    if 7 in target {
      target := target + {0};
      target := target - {7};
    }
  }

  /** Each part has a value, and all are in range. */
  lemma HitsInside(parts: seq<Part>, min: nat, max: nat)
    requires min < max && FieldOk(parts, min, max)
    ensures Within(Hits(parts, min, max), min, max - 1)
  {
    var p := parts[0];
    assert p in parts && Hit(p, min, max, Low(p.span, min));
    assert Low(p.span, min) in Hits(parts, min, max);
  }

  /** The fields of an expression are good. */
  predicate FieldsOk(fields: seq<seq<Part>>) {
    && |fields| == 6
    && FieldOk(fields[0], 0, 60) && FieldOk(fields[1], 0, 60) && FieldOk(fields[2], 0, 24)
    && FieldOk(fields[3], 1, 32) && FieldOk(fields[4], 1, 13) && FieldOk(fields[5], 0, 8)
  }

  /** cron_parse_expr: if it reports no error, each field has a value, and all are in range. */
  method ParseExpr(fields: seq<seq<Part>>) returns (ok: bool, e: Expr)
    ensures ok <==> FieldsOk(fields)
    ensures ok ==> Parsed(e)
    ensures ok ==> e.seconds == Hits(fields[0], 0, 60) && e.minutes == Hits(fields[1], 0, 60) && e.hours == Hits(fields[2], 0, 24)
    ensures ok ==> e.daysOfMonth == Hits(fields[3], 1, 32) && MonthsOf(Hits(fields[4], 1, 13), e.months)
    ensures ok ==> WeekdaysOf(Hits(fields[5], 0, 8), e.daysOfWeek)
  {
    hide Hits, FieldOk, MonthsOf, WeekdaysOf, Within;
    e := Expr({}, {}, {}, {}, {}, {});
    ok := |fields| == 6;
    if !ok {
      return;
    }
    var seconds, minutes, hours, days, months, weekdays;
    ok, seconds := SetNumberHits(fields[0], {}, 0, 60);
    if !ok {
      return;
    }
    ok, minutes := SetNumberHits(fields[1], {}, 0, 60);
    if !ok {
      return;
    }
    ok, hours := SetNumberHits(fields[2], {}, 0, 24);
    if !ok {
      return;
    }
    ok, days := SetNumberHits(fields[3], {}, 1, 32);
    if !ok {
      return;
    }
    ok, months := SetMonths(fields[4]);
    if !ok {
      return;
    }
    ok, weekdays := SetDaysOfWeek(fields[5]);
    if !ok {
      return;
    }
    assert seconds == Hits(fields[0], 0, 60) && minutes == Hits(fields[1], 0, 60) && hours == Hits(fields[2], 0, 24) && days == Hits(fields[3], 1, 32);
    HitsInside(fields[0], 0, 60);
    HitsInside(fields[1], 0, 60);
    HitsInside(fields[2], 0, 24);
    HitsInside(fields[3], 1, 32);
    HitsInside(fields[4], 1, 13);
    HitsInside(fields[5], 0, 8);
    MonthsInside(months, Hits(fields[4], 1, 13));
    WeekdaysInside(weekdays, Hits(fields[5], 0, 8));
    e := Expr(seconds, minutes, hours, weekdays, days, months);
  }

  lemma MonthsInside(months: set<int>, hits: set<int>)
    requires Within(hits, 1, 12) && MonthsOf(hits, months)
    ensures Within(months, 0, 11)
  {
    var y :| y in hits;
    assert y - 1 in months;
  }

  lemma WeekdaysInside(days: set<int>, hits: set<int>)
    requires Within(hits, 0, 7) && WeekdaysOf(hits, days)
    ensures Within(days, 0, 6)
  {
    var y :| y in hits;
    assert (if y == 7 then 0 else y) in days;
  }
}
