/** From the bookkeeping of the first pass to the references of the whole program: every one names
    a label of the code, or an undefined global. */
module Resolve {
  import opened Layout
  import opened Labels
  import opened Buffers
  import opened Program
  import opened Linking

  lemma {:induction false} LastDefIs(hist: seq<Event>, i: nat, id: Id)
    requires i <= |hist|
    ensures LastDef(hist, i, id) != 0 ==> Def(id, LastDef(hist, i, id)) in hist[..i]
    ensures LastDef(hist, i, id) == 0 && !IsLocal(id) && Defs(hist) ==> forall d | 0 <= d < i && hist[d].Def? :: hist[d].id != id
  {
    if i > 0 {
      LastDefIs(hist, i - 1, id);
      assert hist[..i] == hist[..i - 1] + [hist[i - 1]];
    }
  }

  lemma {:induction false} NextDefIs(hist: seq<Event>, i: nat, id: Id)
    requires i <= |hist|
    ensures NextDef(hist, i, id) != 0 ==> Def(id, NextDef(hist, i, id)) in hist[i..]
    ensures NextDef(hist, i, id) == 0 && Defs(hist) ==> forall d | i <= d < |hist| && hist[d].Def? :: hist[d].id != id
    decreases |hist| - i
  {
    if i < |hist| {
      NextDefIs(hist, i + 1, id);
      assert hist[i..] == [hist[i]] + hist[i + 1..];
    }
  }

  /** What a reference means is a definition that happened. */
  lemma MeaningIsDef(hist: seq<Event>, i: nat)
    requires i < |hist| && hist[i].Ref? && Meaning(hist, i) != 0
    ensures Def(hist[i].id, Meaning(hist, i)) in hist
  {
    LastDefIs(hist, i, hist[i].id);
    NextDefIs(hist, i + 1, hist[i].id);
  }

  /** A global nobody defines. */
  lemma NoDefinition(hist: seq<Event>, i: nat)
    requires i < |hist| && hist[i].Ref? && Meaning(hist, i) == 0 && hist[i].mode.Any? && !IsLocal(hist[i].id) && Defs(hist)
    ensures forall d | 0 <= d < |hist| && hist[d].Def? :: hist[d].id != hist[i].id
  {
    LastDefIs(hist, i, hist[i].id);
    NextDefIs(hist, i + 1, hist[i].id);
  }

  /** No local and no PC label waits for its definition. */
  ghost predicate Settled(l: Links) {
    forall id <- l.head | IsLocal(id) || id.PC? :: l.head[id] <= 0
  }

  ghost predicate Undefined(l: Links, m: int, q: int) {
    exists n :: 10 <= n < m && InChain(l, n, q)
  }

  ghost predicate InChain(l: Links, n: int, q: int) {
    LG(n) in l.chain && q in l.chain[LG(n)]
  }

  /** The chains of the globals below m were marked with the negated number of the global. */
  ghost predicate Marked(l: Links, b: map<int, int>, m: int) {
    && b.Keys == l.b.Keys
    && (forall n, q | 10 <= n < m && InChain(l, n, q) && q in b :: b[q] == -n)
    && (forall q <- b | !Undefined(l, m, q) :: b[q] == l.b[q])
  }

  lemma MarkOne(l: Links, b: map<int, int>, m: int)
    requires LinksOk(l) && Marked(l, b, m) && 10 <= m && LG(m) in l.head && LG(m) in l.chain
    ensures Threaded(b, l.chain[LG(m)]) && (l.head[LG(m)] > 0 <==> l.chain[LG(m)] != [])
    ensures l.head[LG(m)] > 0 ==> l.head[LG(m)] == NextLink(l.chain[LG(m)], 0)
    ensures Marked(l, Collapse(b, l.chain[LG(m)], -m), m + 1)
  {
    assert HeadOk(l, LG(m));
    NoNegative(l.hist, |l.hist|, LG(m));
    forall q | q in l.chain[LG(m)] ensures !Undefined(l, m, q) && q in b {
      forall n | 10 <= n < m && InChain(l, n, q) ensures false { ChainsApart(l, LG(n), LG(m), q); }
    }
    hide LinksOk, HeadOk;
    MarkMore(l, b, m);
  }

  lemma MarkMore(l: Links, b: map<int, int>, m: int)
    requires Marked(l, b, m) && 10 <= m && LG(m) in l.chain
    requires forall q | q in l.chain[LG(m)] :: !Undefined(l, m, q) && q in b
    ensures Marked(l, Collapse(b, l.chain[LG(m)], -m), m + 1)
  {
    var b', h := Collapse(b, l.chain[LG(m)], -m), m + 1;
    forall n, q | 10 <= n < h && InChain(l, n, q) && q in b' ensures b'[q] == -n {
      if n < m && q in l.chain[LG(m)] { assert Undefined(l, m, q); }
    }
    forall q <- b' | !Undefined(l, h, q) ensures b'[q] == l.b[q] {
      if q in l.chain[LG(m)] { assert InChain(l, m, q); }
      UndefinedMore(l, m, q);
    }
  }

  lemma UndefinedMore(l: Links, m: int, q: int)
    ensures Undefined(l, m, q) ==> Undefined(l, m + 1, q)
  {
    if Undefined(l, m, q) {
      var n :| 10 <= n < m && InChain(l, n, q);
      assert 10 <= n < m + 1;
    }
  }

  lemma MarkNone(l: Links, b: map<int, int>, m: int)
    requires Marked(l, b, m) && (LG(m) in l.chain ==> l.chain[LG(m)] == [])
    ensures Marked(l, b, m + 1)
  {
    var h := m + 1;
    forall q <- b | !Undefined(l, h, q) ensures b[q] == l.b[q] {
      UndefinedMore(l, m, q);
    }
  }

  // ---- Targets -----------------------------------------------------------------------------

  ghost predicate LabelAt(es: seq<Entry>, t: int, r: int) {
    0 <= t < |es| && es[t].act.Label? && es[t].pos == r
  }

  ghost function TargetOf(es: seq<Entry>, r: int): int {
    if exists t :: LabelAt(es, t, r) then var t :| LabelAt(es, t, r); t else -1
  }

  ghost function Targets(es: seq<Entry>, b: map<int, int>): seq<int> {
    seq(|es|, j requires 0 <= j < |es| => if IsRef(es[j].act) && es[j].pos in b then TargetOf(es, b[es[j].pos]) else -1)
  }

  lemma TargetsAim(es: seq<Entry>, b: map<int, int>)
    ensures Aimed(es, Targets(es, b))
  {
    var tgt := Targets(es, b);
    forall k | 0 <= k < |es| ensures tgt[k] < |es| && (tgt[k] >= 0 ==> es[tgt[k]].act.Label?) {
      if IsRef(es[k].act) && es[k].pos in b && (exists t :: LabelAt(es, t, b[es[k].pos])) {
        assert LabelAt(es, tgt[k], b[es[k].pos]);
      }
    }
  }

  /** Definitions are labels of the code, and the other way round. */
  ghost predicate DefsThere(c: Program, hist: seq<Event>) {
    forall i | 0 <= i < |hist| && hist[i].Def? :: exists t :: LabelAt(c.es, t, hist[i].pos)
  }

  ghost predicate LabelsHappened(c: Program, hist: seq<Event>) {
    forall t | 0 <= t < |c.es| && c.es[t].act.Label? :: c.es[t].pos > 0 && EventsOf(c.es[t])[0] in hist
  }

  /** Reference j goes to the label it means, or to an undefined global. */
  ghost predicate BoundAs(hist: seq<Event>, es: seq<Entry>, tgt: seq<int>, j: nat)
    requires j < |es| && Aimed(es, tgt)
  {
    IsRef(es[j].act) ==> exists i :: 0 <= i < |hist| && hist[i] == EventsOf(es[j])[0] && MeansLabel(hist, i, es, tgt[j])
  }

  ghost predicate MeansLabel(hist: seq<Event>, i: nat, es: seq<Entry>, t: int)
    requires i < |hist| && t < |es|
  {
    hist[i].Ref? && if Meaning(hist, i) != 0 then t >= 0 && es[t].pos == Meaning(hist, i) else t < 0
  }

  /** The words of references, ready for the second pass. */
  lemma RefResolved(al: seq<int>, st: State, c: Program, b: map<int, int>, m: int, e: Entry, j: nat)
    requires c.es == Flat(st.log) && j < |c.es| && c.es[j] == e && IsRef(e.act) && (e.act.pc || 0 < e.act.ref < 256)
    requires DefsThere(c, st.l.hist) && LabelsHappened(c, st.l.hist) && (forall n | LG(n) in st.l.head :: n < m)
    requires Settled(st.l) && Marked(st.l, b, m) && Happened(st.l.hist, e) && StateOk(al, st)
    ensures Aimed(c.es, Targets(c.es, b)) && RefWord(c, Targets(c.es, b), b, j)
    ensures BoundAs(st.l.hist, c.es, Targets(c.es, b), j)
  {
    TargetsAim(c.es, b);
    var i :| 0 <= i < |st.l.hist| && st.l.hist[i] == EventsOf(e)[0];
    assert RefOk(st.l, i);
    assert HeadOk(st.l, st.l.hist[i].id);
    hide StateOk;
    if Meaning(st.l.hist, i) != 0 {
      KnownRefResolved(st.l, c, b, m, i, j);
    } else {
      LateRefResolved(st.l, c, b, m, i, j);
    }
  }

  lemma KnownRefResolved(l: Links, c: Program, b: map<int, int>, m: int, i: nat, j: nat)
    requires i < |l.hist| && l.hist[i].Ref? && Meaning(l.hist, i) != 0 && RefOk(l, i)
    requires j < |c.es| && IsRef(c.es[j].act) && c.es[j].pos == l.hist[i].pos
    requires DefsThere(c, l.hist) && Aimed(c.es, Targets(c.es, b)) && Marked(l, b, m) && LinksOk(l)
    ensures RefWord(c, Targets(c.es, b), b, j) && MeansLabel(l.hist, i, c.es, Targets(c.es, b)[j])
  {
    var q := l.hist[i].pos;
    forall n | 10 <= n < m ensures !InChain(l, n, q) {
      if LG(n) in l.chain {
        assert HeadOk(l, LG(n));
        NotWaiting(l, LG(n), i);
      }
    }
    assert !Undefined(l, m, q) && b[q] == l.b[q];
    MeaningIsDef(l.hist, i);
    var d :| 0 <= d < |l.hist| && l.hist[d] == Def(l.hist[i].id, Meaning(l.hist, i));
    assert exists t :: LabelAt(c.es, t, b[q]);
    assert LabelAt(c.es, Targets(c.es, b)[j], b[q]);
  }

  lemma LateRefResolved(l: Links, c: Program, b: map<int, int>, m: int, i: nat, j: nat)
    requires i < |l.hist| && l.hist[i].Ref? && Meaning(l.hist, i) == 0 && RefOk(l, i)
    requires j < |c.es| && IsRef(c.es[j].act) && l.hist[i] == EventsOf(c.es[j])[0] && (c.es[j].act.pc || 0 < c.es[j].act.ref < 256)
    requires (forall n | LG(n) in l.head :: n < m) && l.hist[i].id in l.head && l.hist[i].id in l.chain && HeadOk(l, l.hist[i].id)
    requires LabelsHappened(c, l.hist) && Aimed(c.es, Targets(c.es, b)) && Settled(l) && Marked(l, b, m) && Defs(l.hist)
    ensures RefWord(c, Targets(c.es, b), b, j) && MeansLabel(l.hist, i, c.es, Targets(c.es, b)[j])
  {
    LateWord(l, b, m, i, c.es[j]);
    NoDefinition(l.hist, i);
    NobodyDefines(l.hist, c, i, c.es[j]);
    hide LinksOk, HeadOk, Marked, Settled, Meaning, NoLabel, LabelsHappened;
    var no := -c.es[j].act.ref;
    forall t ensures !LabelAt(c.es, t, no) { NoNegativeLabel(l.hist, c, t, no); }
    assert Targets(c.es, b)[j] == -1;
  }

  lemma NoNegativeLabel(hist: seq<Event>, c: Program, t: int, no: int)
    requires LabelsHappened(c, hist) && no <= 0
    ensures !LabelAt(c.es, t, no)
  {}

  lemma LateWord(l: Links, b: map<int, int>, m: int, i: nat, e: Entry)
    requires i < |l.hist| && l.hist[i].Ref? && Meaning(l.hist, i) == 0 && RefOk(l, i)
    requires IsRef(e.act) && l.hist[i] == EventsOf(e)[0] && (e.act.pc || 0 < e.act.ref < 256)
    requires (forall n | LG(n) in l.head :: n < m) && l.hist[i].id in l.head && l.hist[i].id in l.chain && HeadOk(l, l.hist[i].id)
    requires Settled(l) && Marked(l, b, m) && Defs(l.hist)
    ensures !e.act.pc && 10 <= e.act.ref <= 246 && e.pos in b && b[e.pos] == -e.act.ref && l.hist[i].id == LG(e.act.ref)
    ensures l.hist[i].mode.Any? && !IsLocal(l.hist[i].id)
  {
    var id := l.hist[i].id;
    assert e.pos in l.chain[id] && l.head[id] > 0 by { NoNegative(l.hist, |l.hist|, id); }
    assert !IsLocal(id) && !id.PC?;
    assert InChain(l, id.n, e.pos) && b[e.pos] == -e.act.ref;
  }

  lemma NobodyDefines(hist: seq<Event>, c: Program, i: nat, e: Entry)
    requires i < |hist| && hist[i].Ref? && IsRef(e.act) && hist[i].id == LG(e.act.ref) && LabelsHappened(c, hist)
    requires forall d | 0 <= d < |hist| && hist[d].Def? :: hist[d].id != hist[i].id
    ensures NoLabel(c.es, e.act.ref)
  {
    forall t | 0 <= t < |c.es| && c.es[t].act.Label? && !c.es[t].act.pc ensures c.es[t].act.index != e.act.ref {
      var d :| 0 <= d < |hist| && hist[d] == EventsOf(c.es[t])[0];
    }
  }

  // ---- All words ----------------------------------------------------------------------------

  ghost predicate AllFinished(log: seq<seq<Entry>>) {
    forall s | 0 <= s < |log| :: Finished(log[s])
  }

  lemma SectionsOf(al: seq<int>, st: State)
    requires AllFinished(st.log) && StateOk(al, st)
    ensures Sections(al, st.log, st.ends)
  {
    hide LinksOk, SlotOk, Flow, AllPlaced;
    forall s | 0 <= s < |st.log| ensures SectionFlow(al, st.log[s], s, st.ends[s]) {
      assert SectionOk(al, st, s);
    }
  }

  lemma WordMarked(l: Links, b: map<int, int>, m: int, q: int, v: int)
    requires Word(l, q, v) && Marked(l, b, m) && LinksOk(l)
    ensures WordIs(b, q, v)
  {
    hide LinksOk;
    SameKeys(l);
    forall n | 10 <= n < m ensures !InChain(l, n, q) {
      if LG(n) in l.chain { NobodyWaits(l, LG(n), q); }
    }
    assert !Undefined(l, m, q);
  }

  lemma SameKeys(l: Links)
    requires LinksOk(l)
    ensures l.head.Keys == l.chain.Keys && Defs(l.hist)
  {}

  /** The sections end where the next ones start. */
  lemma SizesAre(al: seq<int>, st: State, secofs: seq<int>)
    requires |secofs| == |st.log| && (forall s | 0 <= s < |st.log| :: secofs[s] == Off(st.log[s], |st.log[s]|))
    requires Sections(al, st.log, st.ends)
    ensures Sizes(Whole(st.log, st.ends), secofs)
  {
    hide SectionFlow, Off;
    var c := Whole(st.log, st.ends);
    forall s | 0 <= s < |secofs| ensures SizeIs(c, s, secofs[s]) {
      StartsOf(al, st.log, st.ends, s, |st.log[s]|);
    }
  }

  lemma DefsAreThere(al: seq<int>, st: State)
    requires Sections(al, st.log, st.ends) && StateOk(al, st)
    ensures DefsThere(Whole(st.log, st.ends), st.l.hist)
  {
    hide *;
    StateParts(al, st);
    var c, hist := Whole(st.log, st.ends), st.l.hist;
    WholeFields(st.log, st.ends);
    forall i | 0 <= i < |hist| && hist[i].Def? ensures exists t :: LabelAt(c.es, t, hist[i].pos) {
      assert Defined(st.log, hist[i]);
      var s, k := WhereDefined(st.log, hist[i]);
      StartsOf(al, st.log, st.ends, s, k);
      IsLabelAt(c.es, c.bases[s] + k, hist[i]);
    }
    DefsThereIs(c, hist);
  }

  lemma WhereDefined(log: seq<seq<Entry>>, d: Event) returns (s: nat, k: nat)
    requires d.Def? && Defined(log, d)
    ensures s < |log| && k < |log[s]| && EventsOf(log[s][k]) == [d]
  {
    s, k :| 0 <= s < |log| && 0 <= k < |log[s]| && EventsOf(log[s][k]) == [d];
  }

  lemma WholeFields(log: seq<seq<Entry>>, ends: seq<int>)
    ensures Whole(log, ends).es == Flat(log) && Whole(log, ends).ends == ends && |Whole(log, ends).bases| == |log| + 1
  {}

  lemma IsLabelAt(es: seq<Entry>, t: nat, d: Event)
    requires t < |es| && d.Def? && EventsOf(es[t]) == [d]
    ensures LabelAt(es, t, d.pos)
  {
    assert EventsOf(es[t])[0] == d;
  }

  lemma DefsThereIs(c: Program, hist: seq<Event>)
    requires forall i | 0 <= i < |hist| && hist[i].Def? :: exists t :: LabelAt(c.es, t, hist[i].pos)
    ensures DefsThere(c, hist)
  {}

  lemma LabelsDidHappen(al: seq<int>, st: State)
    requires Sections(al, st.log, st.ends) && StateOk(al, st)
    ensures LabelsHappened(Whole(st.log, st.ends), st.l.hist)
  {
    hide *;
    StateParts(al, st);
    WholeOk(al, st.log, st.ends);
    var c, hist := Whole(st.log, st.ends), st.l.hist;
    WholeFields(st.log, st.ends);
    forall t | 0 <= t < |c.es| && c.es[t].act.Label? ensures c.es[t].pos > 0 && EventsOf(c.es[t]) != [] && EventsOf(c.es[t])[0] in hist {
      var s, k := EntryOf(al, st, t);
      assert Happened(hist, st.log[s][k]);
      LabelPositive(al, c, t);
      HappenedIn(hist, st.log[s][k]);
    }
    LabelsHappenedIs(c, hist);
  }

  lemma HappenedIn(hist: seq<Event>, e: Entry)
    requires Happened(hist, e) && e.act.Label?
    ensures EventsOf(e) != [] && EventsOf(e)[0] in hist
  {}

  lemma LabelsHappenedIs(c: Program, hist: seq<Event>)
    requires forall t | 0 <= t < |c.es| && c.es[t].act.Label? ::
      c.es[t].pos > 0 && EventsOf(c.es[t]) != [] && EventsOf(c.es[t])[0] in hist
    ensures LabelsHappened(c, hist)
  {}

  /** The section of an entry, and its place there. */
  lemma EntryOf(al: seq<int>, st: State, j: nat) returns (s: nat, k: nat)
    requires Sections(al, st.log, st.ends) && j < |Flat(st.log)|
    ensures s < |st.log| && k < |st.log[s]| && Flat(st.log)[j] == st.log[s][k]
    ensures var c := Whole(st.log, st.ends);
      s < |c.bases| && 0 <= c.bases[s] <= |c.es| && j == c.bases[s] + k && c.es[j].pos / SEC == s
  {
    hide SectionFlow;
    var c := Whole(st.log, st.ends);
    WholeOk(al, st.log, st.ends);
    s := FindPart(al, c, j, |c.ends|);
    StartsOf(al, st.log, st.ends, s, 0);
    SectionOf(al, c, s, j);
    k := j - c.bases[s];
    StartsOf(al, st.log, st.ends, s, k);
  }

  /** Everything is ready for the second pass. */
  lemma ReadyToLink(al: seq<int>, st: State, b: map<int, int>, m: int)
    requires AllFinished(st.log) && (forall n | LG(n) in st.l.head :: n < m)
    requires Settled(st.l) && Marked(st.l, b, m) && StateOk(al, st)
    ensures var c := Whole(st.log, st.ends);
      ProgramOk(al, c) && LinkedTo(c, Targets(c.es, b), b, 0)
    ensures Aimed(Flat(st.log), Targets(Flat(st.log), b))
    ensures forall j | 0 <= j < |Flat(st.log)| :: BoundAs(st.l.hist, Flat(st.log), Targets(Flat(st.log), b), j)
  {
    hide *;
    SectionsOf(al, st);
    WholeOk(al, st.log, st.ends);
    DefsAreThere(al, st);
    LabelsDidHappen(al, st);
    var c := Whole(st.log, st.ends);
    WholeFields(st.log, st.ends);
    TargetsAim(c.es, b);
    var tgt, g := Targets(c.es, b), 0;
    forall j | 0 <= j < |c.es| ensures SlotAt(c, tgt, b, j, g) && BoundAs(st.l.hist, c.es, tgt, j) {
      SlotReady(al, st, b, m, j);
    }
    LinkedToIs(c, tgt, b, g);
  }

  lemma LinkedToIs(c: Program, tgt: seq<int>, b: map<int, int>, g: nat)
    requires Aimed(c.es, tgt) && g <= |c.es| && forall j | 0 <= j < |c.es| :: SlotAt(c, tgt, b, j, g)
    ensures LinkedTo(c, tgt, b, g)
  {}

  lemma SlotReady(al: seq<int>, st: State, b: map<int, int>, m: int, j: nat)
    requires j < |Flat(st.log)| && (forall n | LG(n) in st.l.head :: n < m) && Sections(al, st.log, st.ends)
    requires DefsThere(Whole(st.log, st.ends), st.l.hist) && LabelsHappened(Whole(st.log, st.ends), st.l.hist)
    requires Settled(st.l) && Marked(st.l, b, m) && StateOk(al, st)
    ensures var c := Whole(st.log, st.ends); Aimed(c.es, Targets(c.es, b)) && SlotAt(c, Targets(c.es, b), b, j, 0)
    ensures Aimed(Flat(st.log), Targets(Flat(st.log), b)) && BoundAs(st.l.hist, Flat(st.log), Targets(Flat(st.log), b), j)
  {
    hide *;
    StateParts(al, st);
    var c := Whole(st.log, st.ends);
    WholeFields(st.log, st.ends);
    var s, k := EntryOf(al, st, j);
    assert SectionOk(al, st, s);
    SlotOf(al, st, s, k);
    assert Happened(st.l.hist, st.log[s][k]);
    TargetsAim(c.es, b);
    StartsOf(al, st.log, st.ends, s, k);
    StartsOf(al, st.log, st.ends, s, k + 1);
    StartIs(c, c.es[j].pos, s);
    RefReady(al, st, b, m, j, st.log[s][k]);
    WordsReady(st.l, c, b, m, st.log[s], k, j);
  }

  lemma SlotOf(al: seq<int>, st: State, s: nat, k: nat)
    requires s < |st.log| && |st.log| == |st.ends| && SectionOk(al, st, s) && k < |st.log[s]|
    ensures SlotOk(st.l, st.log[s], k) && AtAction(al, st.log[s][k])
  {}

  lemma StartIs(c: Program, pos: int, s: nat)
    requires pos / SEC == s && s < |c.bases| && 0 <= c.bases[s] <= |c.es|
    ensures StartAt(c, pos) == Start(c, s)
  {}

  lemma RefReady(al: seq<int>, st: State, b: map<int, int>, m: int, j: nat, e: Entry)
    requires j < |Flat(st.log)| && Flat(st.log)[j] == e && AtAction(al, e) && Happened(st.l.hist, e)
    requires forall n | LG(n) in st.l.head :: n < m
    requires DefsThere(Whole(st.log, st.ends), st.l.hist) && LabelsHappened(Whole(st.log, st.ends), st.l.hist)
    requires Settled(st.l) && Marked(st.l, b, m) && StateOk(al, st)
    ensures var c := Whole(st.log, st.ends); Aimed(c.es, Targets(c.es, b)) && (IsRef(e.act) ==> RefWord(c, Targets(c.es, b), b, j))
    ensures BoundAs(st.l.hist, Flat(st.log), Targets(Flat(st.log), b), j)
  {
    hide StateOk, Settled, Marked, Happened, DefsThere, LabelsHappened, RefWord, MeansLabel;
    var c := Whole(st.log, st.ends);
    TargetsAim(c.es, b);
    if IsRef(e.act) { RefResolved(al, st, c, b, m, e, j); }
  }

  lemma WordsReady(l: Links, c: Program, b: map<int, int>, m: int, es: seq<Entry>, k: nat, j: nat)
    requires k < |es| && j < |c.es| && c.es[j] == es[k] && SlotOk(l, es, k) && Aimed(c.es, Targets(c.es, b))
    requires Off(c.es, j) == StartAt(c, es[k].pos) + Off(es, k) && Off(c.es, j + 1) == StartAt(c, es[k].pos) + Off(es, k + 1)
    requires IsRef(es[k].act) ==> RefWord(c, Targets(c.es, b), b, j)
    requires Marked(l, b, m) && LinksOk(l)
    ensures SlotAt(c, Targets(c.es, b), b, j, 0)
  {
    hide LinksOk, Marked, Word, WordIs, RefWord, Off;
    forall q, v | Word(l, q, v) ensures WordIs(b, q, v) { WordMarked(l, b, m, q, v); }
  }
}
