/** All sections behind one another, as the second and third passes walk through them. */
module Program {
  import opened Layout
  import opened Labels
  import opened Buffers

  /** The entries of all sections; section s has those from bases[s] to before bases[s + 1]. */
  datatype Program = Program(es: seq<Entry>, bases: seq<int>, ends: seq<int>)

  ghost predicate PartOk(c: Program, s: nat)
    requires s < |c.ends| && |c.bases| == |c.ends| + 1
  {
    var lo, hi := c.bases[s], c.bases[s + 1];
    && 0 <= lo <= hi <= |c.es| && c.ends[s] < (s + 1) * SEC
    && (if lo == hi then c.ends[s] == s * SEC
        else c.es[lo].act.Begin? && c.es[lo].pos == s * SEC && c.es[hi - 1].act.Stop? && c.es[hi - 1].pos == c.ends[s])
    && (forall j | lo < j < hi :: Follows(c.es[j - 1], c.es[j]))
    && (forall j | lo <= j < hi :: s * SEC <= c.es[j].pos && c.es[j].pos + Slots(c.es[j].act) <= c.ends[s])
  }

  ghost predicate ProgramOk(al: seq<int>, c: Program) {
    && |c.bases| == |c.ends| + 1 && c.bases[0] == 0 && c.bases[|c.ends|] == |c.es|
    && (forall s | 0 <= s < |c.ends| :: PartOk(c, s))
    && (forall j | 0 <= j < |c.es| :: AtAction(al, c.es[j]))
    && AllPlaced(c.es)
  }

  /** Where section s starts, as estimated. */
  function Start(c: Program, s: nat): nat
    requires s < |c.bases| && 0 <= c.bases[s] <= |c.es|
  {
    Off(c.es, c.bases[s])
  }

  function Flat(log: seq<seq<Entry>>): seq<Entry> {
    if log == [] then [] else Flat(log[..|log| - 1]) + log[|log| - 1]
  }

  function Bases(log: seq<seq<Entry>>): (r: seq<int>)
    ensures |r| == |log| + 1 && r[|log|] == |Flat(log)| && r[0] == 0
  {
    if log == [] then [0] else Bases(log[..|log| - 1]) + [|Flat(log)|]
  }

  function Whole(log: seq<seq<Entry>>, ends: seq<int>): Program {
    Program(Flat(log), Bases(log), ends)
  }

  ghost predicate Sections(al: seq<int>, log: seq<seq<Entry>>, ends: seq<int>) {
    && |log| == |ends|
    && forall s | 0 <= s < |log| :: SectionFlow(al, log[s], s, ends[s])
  }

  ghost predicate SectionFlow(al: seq<int>, es: seq<Entry>, s: nat, end: int) {
    Flow(al, es, s * SEC) && AllPlaced(es) && Finished(es) && end == EndPos(es, s * SEC) && end < (s + 1) * SEC
  }

  /** The sections, put behind one another, make a program. */
  lemma {:induction false} WholeOk(al: seq<int>, log: seq<seq<Entry>>, ends: seq<int>)
    requires Sections(al, log, ends)
    ensures ProgramOk(al, Whole(log, ends))
    decreases |log|
  {
    if log != [] {
      var n := |log| - 1;
      assert SectionFlow(al, log[n], n, ends[n]);
      forall s | 0 <= s < n ensures SectionFlow(al, log[..n][s], s, ends[..n][s]) {
        assert SectionFlow(al, log[s], s, ends[s]);
      }
      WholeOk(al, log[..n], ends[..n]);
      MoreSections(al, Whole(log[..n], ends[..n]), log[n], ends[n]);
      assert ends == ends[..n] + [ends[n]];
      assert Whole(log, ends) == Longer(Whole(log[..n], ends[..n]), log[n], ends[n]);
    }
  }

  function Longer(c: Program, es: seq<Entry>, end: int): Program {
    Program(c.es + es, c.bases + [|c.es| + |es|], c.ends + [end])
  }

  lemma MoreSections(al: seq<int>, c: Program, es: seq<Entry>, end: int)
    requires ProgramOk(al, c) && SectionFlow(al, es, |c.ends|, end)
    ensures ProgramOk(al, Longer(c, es, end))
  {
    var d, n := Longer(c, es, end), |c.ends|;
    hide AtAction, Placed, Follows;
    forall s | 0 <= s < |d.ends| ensures PartOk(d, s) {
      if s < n {
        assert PartOk(c, s);
        EarlierPart(c, es, end, s);
      } else {
        NewPart(al, c, es, end);
      }
    }
    forall j | 0 <= j < |d.es| ensures AtAction(al, d.es[j]) && Placed(d.es, j) {
      if j < |c.es| {
        assert AtAction(al, c.es[j]) && Placed(c.es, j);
        PlacedIn(c.es, es, j);
      } else {
        assert AtAction(al, es[j - |c.es|]) && Placed(es, j - |c.es|);
        PlacedBehind(c.es, es, j - |c.es|);
      }
    }
  }

  lemma EarlierPart(c: Program, es: seq<Entry>, end: int, s: nat)
    requires s < |c.ends| && |c.bases| == |c.ends| + 1 && PartOk(c, s)
    ensures PartOk(Longer(c, es, end), s)
  {
    var d := Longer(c, es, end);
    hide Follows;
    assert d.bases[s] == c.bases[s] && d.bases[s + 1] == c.bases[s + 1] && d.ends[s] == c.ends[s];
    forall j | 0 <= j < |c.es| ensures d.es[j] == c.es[j] {}
  }

  lemma NewPart(al: seq<int>, c: Program, es: seq<Entry>, end: int)
    requires |c.bases| == |c.ends| + 1 && c.bases[|c.ends|] == |c.es| && SectionFlow(al, es, |c.ends|, end)
    ensures PartOk(Longer(c, es, end), |c.ends|)
  {
    var d, n, m := Longer(c, es, end), |c.ends|, |c.es|;
    hide AtAction;
    forall j | m <= j < m + |es| ensures d.es[j] == es[j - m] {}
    forall j | m <= j < m + |es| ensures n * SEC <= d.es[j].pos && d.es[j].pos + Slots(d.es[j].act) <= end {
      PosInside(al, es, n * SEC, j - m);
    }
    forall j | m < j < m + |es| ensures Follows(d.es[j - 1], d.es[j]) {
      assert Follows(es[j - m - 1], es[j - m]);
    }
  }

  lemma PlacedIn(a: seq<Entry>, b: seq<Entry>, k: nat)
    requires k < |a| && Placed(a, k)
    ensures Placed(a + b, k)
  {}

  lemma PlacedBehind(a: seq<Entry>, b: seq<Entry>, k: nat)
    requires k < |b| && Placed(b, k)
    ensures Placed(a + b, |a| + k)
  {}

  // ---- Positions -----------------------------------------------------------------------------

  /** The section of an entry, by its position and by its place. */
  lemma SectionOf(al: seq<int>, c: Program, s: nat, j: nat)
    requires ProgramOk(al, c) && s < |c.ends| && c.bases[s] <= j < c.bases[s + 1]
    ensures j < |c.es| && c.es[j].pos / SEC == s
    ensures s * SEC <= c.es[j].pos && c.es[j].pos + Slots(c.es[j].act) <= c.ends[s] < (s + 1) * SEC
  {
    assert PartOk(c, s);
    assert SEC > 0;
  }

  lemma {:induction false} BasesGrow(al: seq<int>, c: Program, s: nat, t: nat)
    requires ProgramOk(al, c) && s <= t < |c.bases|
    ensures 0 <= c.bases[s] <= c.bases[t] <= |c.es|
    decreases t
  {
    if s < t {
      assert PartOk(c, t - 1);
      BasesGrow(al, c, s, t - 1);
    } else if s < |c.ends| {
      assert PartOk(c, s);
    }
  }

  /** Every entry is in some section. */
  lemma {:induction false} FindPart(al: seq<int>, c: Program, j: nat, n: nat) returns (s: nat)
    requires ProgramOk(al, c) && n < |c.bases| && j < c.bases[n]
    ensures s < n && c.bases[s] <= j < c.bases[s + 1]
    decreases n
  {
    s := n - 1;
    if j < c.bases[s] { s := FindPart(al, c, j, s); }
  }

  /** Later in the program is at a greater position. */
  lemma PosLess(al: seq<int>, c: Program, j: nat, k: nat)
    requires ProgramOk(al, c) && j < k < |c.es|
    ensures c.es[j].pos + Slots(c.es[j].act) <= c.es[k].pos
  {
    var s := FindPart(al, c, j, |c.ends|);
    var t := FindPart(al, c, k, |c.ends|);
    SectionOf(al, c, s, j);
    SectionOf(al, c, t, k);
    if t < s {
      BasesGrow(al, c, t + 1, s);
      assert false;
    } else if s == t {
      BasesGrow(al, c, s + 1, |c.ends|);
      PosLessIn(al, c, s, j, k);
    }
  }

  lemma {:induction false} PosLessIn(al: seq<int>, c: Program, s: nat, j: nat, k: nat)
    requires ProgramOk(al, c) && s < |c.ends| && c.bases[s] <= j < k < c.bases[s + 1] <= |c.es|
    ensures c.es[j].pos + Slots(c.es[j].act) <= c.es[k].pos
    decreases k
  {
    assert PartOk(c, s);
    assert Follows(c.es[k - 1], c.es[k]);
    if j < k - 1 { PosLessIn(al, c, s, j, k - 1); }
  }

  /** Where the entries of a section are, and their offsets. */
  lemma {:induction false} StartsOf(al: seq<int>, log: seq<seq<Entry>>, ends: seq<int>, s: nat, k: nat)
    requires Sections(al, log, ends) && s < |log| && k <= |log[s]|
    ensures var c := Whole(log, ends);
      && 0 <= c.bases[s] && c.bases[s] + |log[s]| == c.bases[s + 1] <= |c.es|
      && Off(c.es, c.bases[s] + k) == Start(c, s) + Off(log[s], k)
      && (k < |log[s]| ==> c.es[c.bases[s] + k] == log[s][k])
    decreases |log|
  {
    hide SectionFlow, Off, Flat, Bases, Whole;
    var n := |log| - 1;
    var c, d := Whole(log, ends), Whole(log[..n], ends[..n]);
    WholeStep(log, ends);
    if s < n {
      forall t | 0 <= t < n ensures SectionFlow(al, log[..n][t], t, ends[..n][t]) {
        assert SectionFlow(al, log[t], t, ends[t]);
      }
      StartsOf(al, log[..n], ends[..n], s, k);
      OffPrefix(d.es, log[n], d.bases[s] + k);
      OffPrefix(d.es, log[n], d.bases[s]);
    } else {
      OffAppend(d.es, log[n], k);
      OffAppend(d.es, log[n], 0);
      NoOff(log[n]);
    }
  }

  lemma WholeStep(log: seq<seq<Entry>>, ends: seq<int>)
    requires log != [] && |log| == |ends|
    ensures var n := |log| - 1;
      var c, d := Whole(log, ends), Whole(log[..n], ends[..n]);
      && c.es == d.es + log[n] && c.bases == d.bases + [|c.es|]
      && |d.bases| == n + 1 && d.bases[n] == |d.es|
  {}

  lemma NoOff(es: seq<Entry>)
    ensures Off(es, 0) == 0
  {}
}
