/** Which part of the subject a capture is: said by the nesting of '(' and ')' in the pattern alone,
    without the list of captures that the matcher keeps. */
module StrCaptures {
  import opened StrClass
  import opened StrPattern

  /** The number of captures that start before item k. */
  function Opens(items: seq<Item>, k: nat): nat
    requires k <= |items|
  {
    if k == 0 then 0 else Opens(items, k - 1) + (if items[k - 1].Open? then 1 else 0)
  }

  /** Where item k starts to match. */
  function Pos(c: seq<nat>, s: nat, k: nat): nat
    requires k <= |c|
  {
    if k == 0 then s else Pos(c, s, k - 1) + c[k - 1]
  }

  /** How many more captures start than end from item i up to before item k, position captures aside. */
  function Level(items: seq<Item>, i: nat, k: nat): int
    requires i <= k <= |items|
    decreases k
  {
    if k == i then 0
    else Level(items, i, k - 1) + (if items[k - 1] == Open(false) then 1 else if items[k - 1].Close? then -1 else 0)
  }

  /** From item a up to item k, never more captures end than have started. */
  ghost predicate NeverBelow(items: seq<Item>, a: nat, k: nat)
    requires a <= k <= |items|
  {
    forall m | a <= m <= k :: Level(items, a, m) >= 0
  }

  /** The ')' at j belongs to the '(' at i: what is between them is balanced, and never closes more than it opens. */
  ghost predicate Closes(items: seq<Item>, i: nat, j: nat) {
    i < j < |items| && items[i] == Open(false) && items[j].Close? && Level(items, i + 1, j) == 0
    && NeverBelow(items, i + 1, j)
  }

  /** The capture that starts with item i goes up to the ')' that belongs to it, if that is before item k. */
  ghost predicate IsCapture(items: seq<Item>, c: seq<nat>, s: nat, k: nat, i: nat, cap: Capture)
    requires i < k <= |items| && |c| == |items|
  {
    cap.init == Pos(c, s, i)
    && if items[i] == Open(true) then cap.len == CAP_POSITION
       else if exists j | i < j < k :: Closes(items, i, j) then
         forall j | i < j < k && Closes(items, i, j) :: cap.len == Pos(c, s, j) - Pos(c, s, i)
       else cap.len == CAP_UNFINISHED
  }

  ghost predicate CaptureAt(items: seq<Item>, c: seq<nat>, s: nat, k: nat, i: nat, caps: seq<Capture>)
    requires i < k <= |items| && |c| == |items|
  {
    Opens(items, i) < |caps| && IsCapture(items, c, s, k, i, caps[Opens(items, i)])
  }

  /** The captures of items up to k, in the order in which they start. */
  ghost predicate CapturesAre(items: seq<Item>, c: seq<nat>, s: nat, k: nat, caps: seq<Capture>)
    requires k <= |items| && |c| == |items|
  {
    |caps| == Opens(items, k) && forall i | 0 <= i < k && items[i].Open? :: CaptureAt(items, c, s, k, i, caps)
  }

  // ---- Nesting -----------------------------------------------------------------------------

  lemma {:induction false} LevelSplit(items: seq<Item>, i: nat, m: nat, k: nat)
    requires i <= m <= k <= |items|
    ensures Level(items, i, k) == Level(items, i, m) + Level(items, m, k)
    decreases k
  {
    if m < k {
      LevelSplit(items, i, m, k - 1);
    }
  }

  /** A start has at most one end. */
  lemma OneEnd(items: seq<Item>, i: nat, j: nat, k: nat)
    requires Closes(items, i, j) && Closes(items, i, k)
    ensures j == k
  {
    assert Level(items, i + 1, j + 1) == Level(items, i + 1, k + 1) == -1;
  }

  /** As long as a start has no end, not more is closed behind it than opened. */
  lemma {:induction false} NotBelow(items: seq<Item>, i: nat, k: nat)
    requires i < k <= |items| && items[i] == Open(false) && forall j | i < j < k :: !Closes(items, i, j)
    ensures NeverBelow(items, i + 1, k)
    decreases k
  {
    if i + 1 < k {
      NotBelow(items, i, k - 1);
      assert Level(items, i + 1, k - 1) >= 0;
      assert Level(items, i + 1, k) < 0 ==> Closes(items, i, k - 1);
    }
  }

  /** Where more is opened than closed, one of the starts has no end. */
  lemma {:induction false} SomeOpen(items: seq<Item>, a: nat, k: nat) returns (m: nat)
    requires a <= k <= |items| && Level(items, a, k) > 0
    ensures a <= m < k && items[m] == Open(false) && forall j | m < j < k :: !Closes(items, m, j)
    decreases k - a
  {
    // The last place with this level; from there on it is higher.
    m := k - 1;
    while Level(items, a, m) > 0
      invariant a <= m < k && forall x | m < x <= k :: Level(items, a, x) > 0
      decreases m
    {
      m := m - 1;
    }
    assert Level(items, a, m + 1) > 0 && Level(items, a, m) <= 0;
    forall j | m < j < k ensures !Closes(items, m, j) {
      LevelSplit(items, a, m + 1, j);
      assert items[j].Close? ==> Level(items, a, j + 1) == Level(items, a, j) - 1;
    }
  }

  /** The latest start without an end is the one that a ')' ends, and no other. */
  lemma LatestCloses(items: seq<Item>, i: nat, k: nat)
    requires i < k < |items| && items[k].Close? && items[i] == Open(false) && forall j | i < j < k :: !Closes(items, i, j)
    ensures (forall m | i < m < k && items[m] == Open(false) :: exists j | m < j < k :: Closes(items, m, j)) ==> Closes(items, i, k)
    ensures forall m | i < m < k && items[m] == Open(false) && (forall j | m < j < k :: !Closes(items, m, j)) :: !Closes(items, i, k)
  {
    NotBelow(items, i, k);
    if Level(items, i + 1, k) > 0 {
      var m := SomeOpen(items, i + 1, k);
    }
    forall m | i < m < k && items[m] == Open(false) && (forall j | m < j < k :: !Closes(items, m, j)) ensures !Closes(items, i, k) {
      NotBelow(items, m, k);
      LevelSplit(items, i + 1, m + 1, k);
      assert Level(items, i + 1, m + 1) == Level(items, i + 1, m) + 1;
    }
  }

  /** Two captures are one inside the other, or apart. */
  lemma Nest(items: seq<Item>, i1: nat, j1: nat, i2: nat, j2: nat)
    requires Closes(items, i1, j1) && Closes(items, i2, j2) && i1 < i2
    ensures j1 < i2 || j2 < j1
  {
    if i2 < j1 <= j2 {
      LevelSplit(items, i1 + 1, i2 + 1, j1);
      assert Level(items, i1 + 1, i2 + 1) == Level(items, i1 + 1, i2) + 1;
    }
  }

  // ---- The list of captures ------------------------------------------------------------------

  lemma {:induction false} OpensGrow(items: seq<Item>, i: nat, k: nat)
    requires i <= k <= |items|
    ensures Opens(items, i) <= Opens(items, k) && (i < k && items[i].Open? ==> Opens(items, i) < Opens(items, k))
    decreases k
  {
    if i < k {
      OpensGrow(items, i, k - 1);
    }
  }

  /** Captures are numbered by their starts. */
  lemma {:induction false} Numbered(items: seq<Item>, k: nat, n: nat) returns (i: nat)
    requires k <= |items| && n < Opens(items, k)
    ensures i < k && items[i].Open? && Opens(items, i) == n
    decreases k
  {
    if items[k - 1].Open? && Opens(items, k - 1) == n {
      i := k - 1;
    } else {
      i := Numbered(items, k - 1, n);
    }
  }

  lemma {:induction false} PosGrow(c: seq<nat>, s: nat, i: nat, k: nat)
    requires i <= k <= |c|
    ensures Pos(c, s, i) <= Pos(c, s, k)
    decreases k
  {
    if i < k {
      PosGrow(c, s, i, k - 1);
    }
  }

  /** A start without an end so far is what the list calls unfinished. */
  lemma UnfinishedIff(items: seq<Item>, c: seq<nat>, s: nat, k: nat, i: nat, cap: Capture)
    requires i < k <= |items| && |c| == |items| && items[i].Open? && IsCapture(items, c, s, k, i, cap)
    ensures cap.len == CAP_UNFINISHED <==> items[i] == Open(false) && !exists j | i < j < k :: Closes(items, i, j)
  {
    if j :| i < j < k && Closes(items, i, j) {
      PosGrow(c, s, i, j);
    }
  }

  lemma SameEnds(items: seq<Item>, c: seq<nat>, s: nat, k: nat, i: nat, cap: Capture)
    requires i < k < |items| && |c| == |items| && items[i].Open? && IsCapture(items, c, s, k, i, cap) && !Closes(items, i, k)
    ensures IsCapture(items, c, s, k + 1, i, cap)
  {
    assert forall j | i < j < k + 1 && Closes(items, i, j) :: i < j < k;
  }

  lemma StepOther(items: seq<Item>, c: seq<nat>, s: nat, k: nat, caps: seq<Capture>)
    requires k < |items| && |c| == |items| && CapturesAre(items, c, s, k, caps) && !items[k].Open? && !items[k].Close?
    ensures CapturesAre(items, c, s, k + 1, caps)
  {
    hide IsCapture;
    forall i | 0 <= i < k + 1 && items[i].Open? ensures CaptureAt(items, c, s, k + 1, i, caps) {
      assert CaptureAt(items, c, s, k, i, caps);
      SameEnds(items, c, s, k, i, caps[Opens(items, i)]);
    }
  }

  lemma StepOpen(items: seq<Item>, c: seq<nat>, s: nat, k: nat, caps: seq<Capture>)
    requires k < |items| && |c| == |items| && CapturesAre(items, c, s, k, caps) && items[k].Open?
    ensures CapturesAre(items, c, s, k + 1, Opened(caps, Pos(c, s, k), items[k].position))
  {
    var now := Opened(caps, Pos(c, s, k), items[k].position);
    forall i | 0 <= i < k + 1 && items[i].Open? ensures CaptureAt(items, c, s, k + 1, i, now) {
      if i < k {
        hide IsCapture;
        assert CaptureAt(items, c, s, k, i, caps);
        OpensGrow(items, i, k);
        SameEnds(items, c, s, k, i, caps[Opens(items, i)]);
      }
    }
  }

  lemma StepClose(items: seq<Item>, c: seq<nat>, s: nat, k: nat, caps: seq<Capture>)
    requires k < |items| && |c| == |items| && CapturesAre(items, c, s, k, caps) && items[k].Close?
    ensures CapturesAre(items, c, s, k + 1, Closed(caps, Pos(c, s, k)))
  {
    hide IsCapture, Closes, Opens, Level;
    var l, now := ToClose(caps), Closed(caps, Pos(c, s, k));
    assert Opens(items, k + 1) == Opens(items, k) by { NoStart(items, k); }
    forall i | 0 <= i < k + 1 && items[i].Open? ensures CaptureAt(items, c, s, k + 1, i, now) {
      assert CaptureAt(items, c, s, k, i, caps);
      EndsWith(items, c, s, k, caps, i);
      if Opens(items, i) == l {
        NowEnds(items, c, s, k, i, caps[l], now[l]);
      } else {
        SameEnds(items, c, s, k, i, caps[Opens(items, i)]);
      }
    }
  }

  lemma NoStart(items: seq<Item>, k: nat)
    requires k < |items| && !items[k].Open?
    ensures Opens(items, k + 1) == Opens(items, k)
  {}

  /** The ')' at k ends the capture that is called the one to close. */
  lemma EndsWith(items: seq<Item>, c: seq<nat>, s: nat, k: nat, caps: seq<Capture>, i: nat)
    requires k < |items| && |c| == |items| && CapturesAre(items, c, s, k, caps) && items[k].Close? && i < k && items[i].Open?
    ensures Opens(items, i) == ToClose(caps) <==> Closes(items, i, k)
  {
    hide IsCapture, Closes, Level;
    var l := ToClose(caps);
    assert CaptureAt(items, c, s, k, i, caps);
    UnfinishedIff(items, c, s, k, i, caps[Opens(items, i)]);
    if caps[Opens(items, i)].len != CAP_UNFINISHED {
      NotAgain(items, i, k);
    } else {
      LatestCloses(items, i, k);
      if Opens(items, i) == l {
        forall m | i < m < k && items[m] == Open(false) ensures exists j | m < j < k :: Closes(items, m, j) {
          assert CaptureAt(items, c, s, k, m, caps);
          OpensGrow(items, i, m);
          UnfinishedIff(items, c, s, k, m, caps[Opens(items, m)]);
        }
      } else {
        var m := Numbered(items, k, l);
        assert CaptureAt(items, c, s, k, m, caps);
        UnfinishedIff(items, c, s, k, m, caps[l]);
        if m < i { OpensGrow(items, m, i); }
      }
    }
  }

  lemma NotAgain(items: seq<Item>, i: nat, k: nat)
    requires i < k < |items| && items[i].Open? && (items[i] == Open(true) || exists j | i < j < k :: Closes(items, i, j))
    ensures !Closes(items, i, k)
  {
    if items[i] == Open(false) && Closes(items, i, k) {
      var j :| i < j < k && Closes(items, i, j);
      OneEnd(items, i, j, k);
    }
  }

  lemma NowEnds(items: seq<Item>, c: seq<nat>, s: nat, k: nat, i: nat, cap: Capture, cap': Capture)
    requires i < k < |items| && |c| == |items| && IsCapture(items, c, s, k, i, cap) && Closes(items, i, k)
    requires cap' == Capture(cap.init, Pos(c, s, k) - cap.init)
    ensures IsCapture(items, c, s, k + 1, i, cap')
  {
    forall j | i < j < k + 1 && Closes(items, i, j) ensures j == k {
      OneEnd(items, i, j, k);
    }
  }

  /** The captures of a match are those that the pattern's parentheses say. */
  lemma {:induction false} ApplyIs(items: seq<Item>, c: seq<nat>, s: nat, k: nat, caps: seq<Capture>)
    requires k <= |items| && |c| == |items| && CapturesAre(items, c, s, k, caps)
    ensures CapturesAre(items, c, s, |items|, Apply(items[k..], c[k..], Pos(c, s, k), caps))
    decreases |items| - k
  {
    hide CapturesAre, Opened, Closed;
    if k < |items| {
      var now := match items[k]
        case Open(position) => Opened(caps, Pos(c, s, k), position)
        case Close => Closed(caps, Pos(c, s, k))
        case _ => caps;
      match items[k] {
        case Open(position) => StepOpen(items, c, s, k, caps);
        case Close => StepClose(items, c, s, k, caps);
        case _ => StepOther(items, c, s, k, caps);
      }
      assert items[k..][1..] == items[k + 1..] && c[k..][1..] == c[k + 1..];
      assert Pos(c, s, k + 1) == Pos(c, s, k) + c[k];
      ApplyIs(items, c, s, k + 1, now);
    }
  }

  lemma CapturesOf(items: seq<Item>, c: seq<nat>, s: nat)
    requires |c| == |items|
    ensures CapturesAre(items, c, s, |items|, Apply(items, c, s, []))
  {
    assert items[0..] == items && c[0..] == c;
    ApplyIs(items, c, s, 0, []);
  }

  // ---- An example ------------------------------------------------------------------------------

  function Ascii(s: string): (r: seq<byte>)
    requires forall k | 0 <= k < |s| :: s[k] as int < 256
    ensures |r| == |s| && forall k | 0 <= k < |s| :: r[k] == s[k] as int
  {
    seq(|s|, k requires 0 <= k < |s| => s[k] as int)
  }

  /** A pattern with every kind of item but position captures. */
  lemma ItemsOfExample(pat: seq<byte>) returns (items: seq<Item>)
    requires pat == Ascii("((%l+)[^x]*%s-=?)$")
    ensures Items(pat, 0) == Some(items)
    ensures items == [Open(false), Open(false), Chars(2, 4, Plus), Close, Chars(6, 10, Star), Chars(11, 13, Lazy), Chars(14, 15, Opt), Close, AtEnd]
  {
    items := [AtEnd];
    assert Items(pat, 17) == Some(items);
    items := [Close] + items;
    assert Items(pat, 16) == Some(items);
    items := [Chars(14, 15, Opt)] + items;
    assert Items(pat, 14) == Some(items);
    items := [Chars(11, 13, Lazy)] + items;
    assert Items(pat, 11) == Some(items);
    assert BracketEnd(pat, 8) == Some(10);
    items := [Chars(6, 10, Star)] + items;
    assert Items(pat, 6) == Some(items);
    items := [Close] + items;
    assert Items(pat, 5) == Some(items);
    items := [Chars(2, 4, Plus)] + items;
    assert Items(pat, 2) == Some(items);
    items := [Open(false)] + items;
    assert Items(pat, 1) == Some(items);
    items := [Open(false)] + items;
    assert Items(pat, 0) == Some(items);
  }

  /** Its outer parentheses are those at items 0 and 7, and the inner ones those at items 1 and 3. */
  lemma NestingOfExample(pat: seq<byte>, c: seq<nat>, s: nat, caps: seq<Capture>)
    requires pat == Ascii("((%l+)[^x]*%s-=?)$") && |c| == 9 && Items(pat, 0).Some? && |Items(pat, 0).value| == 9
    requires CapturesAre(Items(pat, 0).value, c, s, 9, caps)
    ensures |caps| == 2 && caps[0] == Capture(Pos(c, s, 0), Pos(c, s, 7) - Pos(c, s, 0)) && caps[1] == Capture(Pos(c, s, 1), Pos(c, s, 3) - Pos(c, s, 1))
  {
    var items := ItemsOfExample(pat);
    assert Closes(items, 0, 7) && Closes(items, 1, 3);
    assert Opens(items, 0) == 0 && Opens(items, 1) == 1 && Opens(items, 3) == Opens(items, 5) == Opens(items, 7) == Opens(items, 9) == 2;
    assert CaptureAt(items, c, s, 9, 0, caps) && CaptureAt(items, c, s, 9, 1, caps);
  }
}
