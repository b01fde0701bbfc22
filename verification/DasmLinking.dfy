/** The second pass: from the words of the first pass to those the third pass relies on. */
module Linking {
  import opened Layout
  import opened Labels
  import opened Buffers
  import opened Program

  /** The estimated start of the section that position pos is in. */
  ghost function StartAt(c: Program, pos: int): int {
    var s := pos / SEC;
    if 0 <= s < |c.bases| && 0 <= c.bases[s] <= |c.es| then Off(c.es, c.bases[s]) else 0
  }

  /** A reference to a label of the code holds its position; one to an undefined global holds the
      number of that global, negated. */
  ghost predicate RefWord(c: Program, tgt: seq<int>, b: map<int, int>, j: nat)
    requires Aimed(c.es, tgt) && j < |c.es| && IsRef(c.es[j].act)
  {
    var e := c.es[j];
    e.pos in b &&
    if tgt[j] >= 0 then b[e.pos] == c.es[tgt[j]].pos
    else !e.act.pc && 10 <= e.act.ref <= 246 && b[e.pos] == -e.act.ref && NoLabel(c.es, e.act.ref)
  }

  ghost predicate NoLabel(es: seq<Entry>, n: int) {
    forall t | 0 <= t < |es| && es[t].act.Label? && !es[t].act.pc :: es[t].act.index != n
  }

  ghost predicate WordIs(b: map<int, int>, pos: int, v: int) {
    pos in b && b[pos] == v
  }

  /** The words of entry j before (or after) the second pass came by. */
  ghost predicate SlotNow(c: Program, tgt: seq<int>, b: map<int, int>, j: nat, done: bool)
    requires Aimed(c.es, tgt) && j < |c.es|
  {
    var e := c.es[j];
    match e.act
    case Begin(start) => WordIs(b, e.pos, start)
    case Imm(_, n) => WordIs(b, e.pos, n)
    case Space(count, _) => WordIs(b, e.pos, count)
    case Rel(_, op, _) =>
      RefWord(c, tgt, b, j)
      && WordIs(b, e.pos + 1, if !done then Off(c.es, j + 1) - StartAt(c, e.pos) else if Shrinks(c.es, tgt, j) then Saving(op) else 0)
    case ImmLabel(_, _) => RefWord(c, tgt, b, j)
    case Label(_, _) => WordIs(b, e.pos, if done then Final(c.es, tgt, j) else Off(c.es, j) - StartAt(c, e.pos))
    case Align(_) => WordIs(b, e.pos, Off(c.es, j + 1) - StartAt(c, e.pos))
    case _ => true
  }

  /** The words of entry j when the second pass has come to entry g. */
  ghost predicate SlotAt(c: Program, tgt: seq<int>, b: map<int, int>, j: nat, g: nat)
    requires Aimed(c.es, tgt) && j < |c.es|
  {
    SlotNow(c, tgt, b, j, j < g)
  }

  ghost predicate LinkedTo(c: Program, tgt: seq<int>, b: map<int, int>, g: nat) {
    Aimed(c.es, tgt) && g <= |c.es| && forall j | 0 <= j < |c.es| :: SlotAt(c, tgt, b, j, g)
  }

  /** The pass changes nothing but words of the current entry. */
  lemma StepWords(al: seq<int>, c: Program, tgt: seq<int>, b: map<int, int>, g: nat, q: int, v: int)
    requires ProgramOk(al, c) && LinkedTo(c, tgt, b, g) && g < |c.es|
    requires c.es[g].pos <= q < c.es[g].pos + Slots(c.es[g].act)
    requires SlotNow(c, tgt, b[q := v], g, true)
    ensures LinkedTo(c, tgt, b[q := v], g + 1)
  {
    hide SlotNow;
    var b', h := b[q := v], g + 1;
    forall j | 0 <= j < |c.es| ensures SlotAt(c, tgt, b', j, h) {
      if j != g {
        assert SlotAt(c, tgt, b, j, g);
        if j < g { PosLess(al, c, j, g); } else { PosLess(al, c, g, j); }
        SlotKept(c, tgt, b, j, j < g, q, v);
      }
    }
  }

  lemma SlotKept(c: Program, tgt: seq<int>, b: map<int, int>, j: nat, done: bool, q: int, v: int)
    requires Aimed(c.es, tgt) && j < |c.es| && SlotNow(c, tgt, b, j, done)
    requires q < c.es[j].pos || c.es[j].pos + Slots(c.es[j].act) <= q
    ensures SlotNow(c, tgt, b[q := v], j, done)
  {}

  /** Entries without anything to fix. */
  lemma StepNothing(c: Program, tgt: seq<int>, b: map<int, int>, g: nat)
    requires LinkedTo(c, tgt, b, g) && g < |c.es| && !c.es[g].act.Rel? && !c.es[g].act.Label?
    ensures LinkedTo(c, tgt, b, g + 1)
  {
    var h := g + 1;
    forall j | 0 <= j < |c.es| ensures SlotAt(c, tgt, b, j, h) {
      assert SlotAt(c, tgt, b, j, g);
    }
  }

  /** What the second pass computes for a branch is the distance to its label. */
  lemma SeenDistance(al: seq<int>, c: Program, tgt: seq<int>, b: map<int, int>, g: nat)
    requires ProgramOk(al, c) && LinkedTo(c, tgt, b, g) && g < |c.es| && c.es[g].act.Rel? && tgt[g] >= 0
    ensures var pos, lpos := c.es[g].pos, c.es[tgt[g]].pos;
      && pos in b && b[pos] == lpos && lpos in b && pos + 1 in b && tgt[g] != g && lpos != pos
      && (lpos > pos <==> tgt[g] > g)
      && (lpos > pos ==> Distance(c.es, tgt, g) == b[lpos] + StartAt(c, lpos) - StartAt(c, pos) - b[pos + 1])
      && (lpos < pos ==> Distance(c.es, tgt, g) == b[lpos] - (Slack(c.es, tgt, g) + StartAt(c, pos)) - b[pos + 1])
  {
    var t := tgt[g];
    assert SlotAt(c, tgt, b, g, g) && SlotAt(c, tgt, b, t, g);
    if t < g { PosLess(al, c, t, g); } else { PosLess(al, c, g, t); }
  }

  // ---- The sections' sizes ---------------------------------------------------------------------

  /** secofs[m] + ... + secofs[n - 1] */
  function Sum(secofs: seq<int>, m: nat, n: nat): int
    requires m <= n <= |secofs|
    decreases n
  {
    if m == n then 0 else Sum(secofs, m, n - 1) + secofs[n - 1]
  }

  ghost predicate Sizes(c: Program, secofs: seq<int>) {
    && |secofs| == |c.ends| && |c.bases| == |c.ends| + 1
    && forall s | 0 <= s < |secofs| :: SizeIs(c, s, secofs[s])
  }

  ghost predicate SizeIs(c: Program, s: nat, size: int)
    requires s + 1 < |c.bases|
  {
    0 <= c.bases[s] <= c.bases[s + 1] <= |c.es| && size == Start(c, s + 1) - Start(c, s)
  }

  lemma {:induction false} SumIsStart(c: Program, secofs: seq<int>, m: nat, n: nat)
    requires Sizes(c, secofs) && m <= n <= |secofs| && 0 <= c.bases[m] <= |c.es| && 0 <= c.bases[n] <= |c.es|
    ensures Sum(secofs, m, n) == Start(c, n) - Start(c, m)
    decreases n
  {
    if m < n {
      assert SizeIs(c, n - 1, secofs[n - 1]);
      SumIsStart(c, secofs, m, n - 1);
    }
  }

  // ---- What the third pass finds ----------------------------------------------------------------

  /** After the second pass. */
  lemma LabelsFixed(al: seq<int>, c: Program, tgt: seq<int>, b: map<int, int>, j: nat)
    requires ProgramOk(al, c) && LinkedTo(c, tgt, b, |c.es|) && j < |c.es| && IsRef(c.es[j].act) && tgt[j] >= 0
    ensures c.es[j].pos in b && b[c.es[j].pos] in b && b[b[c.es[j].pos]] == Final(c.es, tgt, tgt[j]) >= 0
    ensures b[c.es[j].pos] > 0
  {
    assert SlotAt(c, tgt, b, j, |c.es|) && SlotAt(c, tgt, b, tgt[j], |c.es|);
    Closer(c.es, tgt, tgt[j], tgt[j]);
    LabelPositive(al, c, tgt[j]);
  }

  lemma LabelPositive(al: seq<int>, c: Program, t: nat)
    requires ProgramOk(al, c) && t < |c.es| && c.es[t].act.Label?
    ensures c.es[t].pos > 0
  {
    var s := FindPart(al, c, t, |c.ends|);
    SectionOf(al, c, s, t);
    assert PartOk(c, s);
    var lo := c.bases[s];
    assert t != lo;
    SectionOf(al, c, s, lo);
    PosLess(al, c, lo, t);
  }
}
