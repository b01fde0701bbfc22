/** What the first pass leaves in the section buffers: for every action of the code, in order, its
    arguments and estimates in consecutive slots. */
module Buffers {
  import opened Layout
  import opened Labels

  /** A position is a section number and an index of 24 bits. */
  const SEC: int := 0x1000000

  const SPACE: int := 241
  const REL_LG: int := 244
  const REL_PC: int := 245
  const IMM_LG: int := 246
  const IMM_PC: int := 247
  const LABEL_LG: int := 248
  const LABEL_PC: int := 249
  const ALIGN: int := 250
  const ESC: int := 252
  const SECTION: int := 254
  const STOP: int := 255

  /** Bytes of an action in the action list. */
  function Len(a: Action): (n: nat)
  {
    match a
    case Esc(_) => 2
    case Space(_, _) => 2
    case Rel(pc, _, _) => if pc then 1 else 2
    case ImmLabel(pc, _) => if pc then 1 else 2
    case Label(pc, _) => if pc then 1 else 2
    case Align(_) => 2
    case _ => 1
  }

  /** Arguments of dasm_put an action takes. */
  function Args(a: Action): (n: nat)
    ensures n <= 1
  {
    match a
    case Imm(_, _) => 1
    case Space(_, _) => 1
    case Rel(pc, _, _) => if pc then 1 else 0
    case ImmLabel(pc, _) => if pc then 1 else 0
    case Label(pc, _) => if pc then 1 else 0
    case _ => 0
  }

  /** Words of the buffer an action takes. */
  function Slots(a: Action): (n: nat)
    ensures n <= 2
  {
    match a
    case Begin(_) => 1
    case Imm(_, _) => 1
    case Space(_, _) => 1
    case Rel(_, _, _) => 2
    case ImmLabel(_, _) => 1
    case Label(_, _) => 1
    case Align(_) => 1
    case _ => 0
  }

  /** Alignment masks are powers of two less one, so that masking is taking the remainder. */
  predicate IsMask(m: int) {
    m in {0, 1, 3, 7, 15, 31, 63, 127, 255}
  }

  /** The action at p, with arguments from a on, and the operand bytes it needs. */
  predicate Legal(al: seq<int>, p: int, args: seq<int>, a: nat) {
    0 <= p < |al| &&
    var c := al[p];
    if 0 <= c < 233 then true
    else if IsImm(c) then a < |args|
    else if c == SPACE then p + 1 < |al| && a < |args| && args[a] >= 0
    else if c == REL_LG then p + 1 < |al| && p >= 1 && 0 < al[p + 1] < 256
    else if c == IMM_LG || c == LABEL_LG then p + 1 < |al| && 0 < al[p + 1] < 256
    else if c == REL_PC then a < |args| && p >= 1
    else if c == IMM_PC || c == LABEL_PC then a < |args|
    else if c == ALIGN then p + 1 < |al| && IsMask(al[p + 1])
    else if c == ESC then p + 1 < |al| && 0 <= al[p + 1] < 256
    else if c == SECTION then p + 1 < |al| && al[p + 1] >= 0
    else c == STOP
  }

  function ActionAt(al: seq<int>, p: int, args: seq<int>, a: nat): (r: Action)
    requires Legal(al, p, args, a)
  {
    var c := al[p];
    if c < 233 then Lit(c)
    else if IsImm(c) then Imm(c, args[a])
    else if c == SPACE then Space(args[a], al[p + 1])
    else if c == REL_LG then Rel(false, al[p - 1], al[p + 1])
    else if c == REL_PC then Rel(true, al[p - 1], args[a])
    else if c == IMM_LG then ImmLabel(false, al[p + 1])
    else if c == IMM_PC then ImmLabel(true, args[a])
    else if c == LABEL_LG then Label(false, al[p + 1])
    else if c == LABEL_PC then Label(true, args[a])
    else if c == ALIGN then Align(al[p + 1])
    else if c == ESC then Esc(al[p + 1])
    else Stop(c == SECTION)
  }

  /** What later passes can tell of an action from the action list alone. */
  predicate AtAction(al: seq<int>, e: Entry) {
    var p := e.p;
    match e.act
    case Begin(_) => true
    case Lit(byte) => 0 <= p < |al| && al[p] == byte && 0 <= byte < 233
    case Esc(byte) => 0 <= p < |al| - 1 && al[p] == ESC && al[p + 1] == byte && 0 <= byte < 256
    case Imm(code, _) => 0 <= p < |al| && al[p] == code && IsImm(code)
    case Space(_, fill) => 0 <= p < |al| - 1 && al[p] == SPACE && al[p + 1] == fill
    case Rel(pc, op, ref) => 1 <= p < |al| && al[p - 1] == op && if pc then al[p] == REL_PC else al[p] == REL_LG && p + 1 < |al| && al[p + 1] == ref && 0 < ref < 256
    case ImmLabel(pc, ref) => 0 <= p < |al| && if pc then al[p] == IMM_PC else al[p] == IMM_LG && p + 1 < |al| && al[p + 1] == ref && 0 < ref < 256
    case Label(pc, index) => 0 <= p < |al| && if pc then al[p] == LABEL_PC else al[p] == LABEL_LG && p + 1 < |al| && al[p + 1] == index && 0 < index < 256
    case Align(mask) => 0 <= p < |al| - 1 && al[p] == ALIGN && al[p + 1] == mask
    case Stop(section) => 0 <= p < |al| && al[p] == if section then SECTION else STOP
  }

  lemma ActionIsThere(al: seq<int>, p: int, args: seq<int>, a: nat, pos: int)
    requires Legal(al, p, args, a)
    ensures AtAction(al, Entry(p, pos, ActionAt(al, p, args, a)))
    ensures !ActionAt(al, p, args, a).Begin?
  {}

  /** f is the entry behind e. */
  predicate Follows(e: Entry, f: Entry) {
    f.pos == e.pos + Slots(e.act) &&
    match e.act
    case Begin(start) => f.p == start && !f.act.Begin?
    case Stop(_) => f.act.Begin?
    case _ => f.p == e.p + Len(e.act) && !f.act.Begin?
  }

  /** The entries of a section, from its first position on. */
  ghost predicate Flow(al: seq<int>, es: seq<Entry>, lo: int) {
    && (forall k | 0 <= k < |es| :: AtAction(al, es[k]))
    && (forall k | 0 < k < |es| :: Follows(es[k - 1], es[k]))
    && (es != [] ==> es[0].act.Begin? && es[0].pos == lo)
  }

  function EndPos(es: seq<Entry>, lo: int): int {
    if es == [] then lo else es[|es| - 1].pos + Slots(es[|es| - 1].act)
  }

  /** No dasm_put call is under way. */
  predicate Finished(es: seq<Entry>) {
    es == [] || es[|es| - 1].act.Stop?
  }

  predicate IsRef(a: Action) {
    a.Rel? || a.ImmLabel?
  }

  function IdOf(pc: bool, ref: int): Id {
    if pc then PC(ref) else if ref > 246 then LG(ref - 246) else LG(ref)
  }

  function ModeOf(pc: bool, ref: int): Mode {
    if pc then Any else if ref > 246 then Fwd else if ref < 10 then Back else Any
  }

  /** What an entry means for labels. */
  function EventsOf(e: Entry): seq<Event> {
    match e.act
    case Rel(pc, _, ref) => [Ref(IdOf(pc, ref), e.pos, ModeOf(pc, ref))]
    case ImmLabel(pc, ref) => [Ref(IdOf(pc, ref), e.pos, ModeOf(pc, ref))]
    case Label(pc, index) => [Def(if pc then PC(index) else LG(index), e.pos)]
    case _ => []
  }

  /** The words of entry k: arguments and first-pass estimates. Words of references are described
      by Labels.LinksOk. */
  ghost predicate SlotOk(l: Links, es: seq<Entry>, k: nat)
    requires k < |es|
  {
    var e := es[k];
    match e.act
    case Begin(start) => Word(l, e.pos, start)
    case Imm(_, n) => Word(l, e.pos, n)
    case Space(count, _) => Word(l, e.pos, count)
    case Rel(_, _, _) => e.pos in l.b && Word(l, e.pos + 1, Off(es, k + 1))
    case ImmLabel(_, _) => e.pos in l.b
    case Label(_, _) => Word(l, e.pos, Off(es, k))
    case Align(_) => Word(l, e.pos, Off(es, k + 1))
    case _ => true
  }

  /** A word that is not a reference. */
  ghost predicate Word(l: Links, pos: int, v: int) {
    pos in l.b && l.b[pos] == v && NoRef(l.hist, pos)
  }

  /** The position lies in front of the end of its section. */
  predicate BelowEnd(q: int, ends: seq<int>) {
    0 <= q / SEC < |ends| && q < ends[q / SEC]
  }

  datatype State = State(l: Links, log: seq<seq<Entry>>, ends: seq<int>)

  ghost predicate SectionOk(al: seq<int>, st: State, s: nat)
    requires s < |st.log| && s < |st.ends|
  {
    && Flow(al, st.log[s], s * SEC) && AllPlaced(st.log[s])
    && st.ends[s] == EndPos(st.log[s], s * SEC) && st.ends[s] < (s + 1) * SEC
    && (forall k | 0 <= k < |st.log[s]| :: SlotOk(st.l, st.log[s], k))
  }

  /** Every reference and definition in the code happened, and every definition that happened is
      in the code. */
  ghost predicate Happened(hist: seq<Event>, e: Entry) {
    EventsOf(e) != [] ==> exists i :: 0 <= i < |hist| && hist[i] == EventsOf(e)[0]
  }

  ghost predicate Defined(log: seq<seq<Entry>>, d: Event) {
    d.Def? ==> exists s, k :: 0 <= s < |log| && 0 <= k < |log[s]| && EventsOf(log[s][k]) == [d]
  }

  ghost predicate StateOk(al: seq<int>, st: State) {
    && |st.log| == |st.ends|
    && (forall s | 0 <= s < |st.log| :: SectionOk(al, st, s))
    && LinksOk(st.l)
    && (forall q <- st.l.b :: BelowEnd(q, st.ends))
    && (forall s, k | 0 <= s < |st.log| && 0 <= k < |st.log[s]| :: Happened(st.l.hist, st.log[s][k]))
    && (forall i | 0 <= i < |st.l.hist| :: Defined(st.log, st.l.hist[i]))
  }

  // ---- One more entry -----------------------------------------------------------------------

  /** l' is l after the words of e were written at the end of section s. */
  ghost predicate Written(l: Links, l': Links, es: seq<Entry>, e: Entry) {
    && LinksOk(l') && l'.hist == l.hist + EventsOf(e) && l.b.Keys <= l'.b.Keys
    && (forall q <- l.b | NoRef(l.hist, q) :: q in l'.b && l'.b[q] == l.b[q])
    && (forall q <- l'.b :: q in l.b || e.pos <= q < e.pos + Slots(e.act))
    && SlotOk(l', es + [e], |es|)
  }

  /** e may come next in a section with entries es. */
  predicate Next(es: seq<Entry>, lo: int, e: Entry) {
    if es == [] then e.act.Begin? && e.pos == lo else Follows(es[|es| - 1], e)
  }

  function Extend(st: State, s: nat, e: Entry, l: Links): State
    requires s < |st.log| && s < |st.ends|
  {
    State(l, st.log[s := st.log[s] + [e]], st.ends[s := e.pos + Slots(e.act)])
  }

  lemma Grow(al: seq<int>, st: State, s: nat, e: Entry, l': Links)
    requires StateOk(al, st) && s < |st.log| && AtAction(al, e) && Next(st.log[s], s * SEC, e)
    requires Placed(st.log[s] + [e], |st.log[s]|) && e.pos + Slots(e.act) < (s + 1) * SEC
    requires Written(st.l, l', st.log[s], e)
    ensures StateOk(al, Extend(st, s, e, l'))
  {
    hide *;
    StateParts(al, st);
    var st' := Extend(st, s, e, l');
    ExtendShape(st, s, e, l');
    assert SectionOk(al, st, s);
    NextPos(al, st, s, e);
    assert e.pos < (s + 1) * SEC by { NoNegativeSlots(e.act); }
    WrittenParts(st.l, l', st.log[s], e);
    GrowSection(al, st, s, e, l');
    forall t | 0 <= t < |st'.log| ensures SectionOk(al, st', t) {
      if t != s { OtherSection(al, st, s, e, l', t); }
    }
    forall q <- st'.l.b ensures BelowEnd(q, st'.ends) { GrowEnds(st, s, e, l', q); }
    forall t, k | 0 <= t < |st'.log| && 0 <= k < |st'.log[t]| ensures Happened(st'.l.hist, st'.log[t][k]) {
      if t != s || k < |st.log[s]| {
        assert Happened(st.l.hist, st.log[t][k]);
        HappenedMore(st.l.hist, EventsOf(e), st.log[t][k]);
      } else {
        HappenedNow(st.l.hist, e);
      }
    }
    forall i | 0 <= i < |st'.l.hist| ensures Defined(st'.log, st'.l.hist[i]) {
      if i < |st.l.hist| {
        assert Defined(st.log, st.l.hist[i]);
        DefinedMore(st.log, s, e, st.l.hist[i]);
      } else {
        DefinedNow(st.log, s, e, st.l.hist, i);
      }
    }
    StateWhole(al, st');
  }

  lemma StateParts(al: seq<int>, st: State)
    requires StateOk(al, st)
    ensures |st.log| == |st.ends| && LinksOk(st.l) && (forall q <- st.l.b :: BelowEnd(q, st.ends))
    ensures forall s | 0 <= s < |st.log| :: SectionOk(al, st, s)
    ensures forall s, k | 0 <= s < |st.log| && 0 <= k < |st.log[s]| :: Happened(st.l.hist, st.log[s][k])
    ensures forall i | 0 <= i < |st.l.hist| :: Defined(st.log, st.l.hist[i])
  {}

  lemma StateWhole(al: seq<int>, st: State)
    requires |st.log| == |st.ends| && LinksOk(st.l) && (forall q <- st.l.b :: BelowEnd(q, st.ends))
    requires forall s | 0 <= s < |st.log| :: SectionOk(al, st, s)
    requires forall s, k | 0 <= s < |st.log| && 0 <= k < |st.log[s]| :: Happened(st.l.hist, st.log[s][k])
    requires forall i | 0 <= i < |st.l.hist| :: Defined(st.log, st.l.hist[i])
    ensures StateOk(al, st)
  {}

  lemma ExtendShape(st: State, s: nat, e: Entry, l: Links)
    requires s < |st.log| && |st.log| == |st.ends|
    ensures var st' := Extend(st, s, e, l);
      && st'.l == l && |st'.log| == |st.log| && |st'.ends| == |st.ends|
      && st'.log == st.log[s := st.log[s] + [e]] && st'.ends == st.ends[s := e.pos + Slots(e.act)]
      && st'.log[s] == st.log[s] + [e] && st'.ends[s] == e.pos + Slots(e.act)
      && (forall t | 0 <= t < |st.log| && t != s :: st'.log[t] == st.log[t] && st'.ends[t] == st.ends[t])
  {}

  lemma NoNegativeSlots(a: Action)
    ensures Slots(a) >= 0
  {}

  lemma WrittenParts(l: Links, l': Links, es: seq<Entry>, e: Entry)
    requires Written(l, l', es, e)
    ensures LinksOk(l') && l'.hist == l.hist + EventsOf(e)
  {}

  lemma NextPos(al: seq<int>, st: State, s: nat, e: Entry)
    requires s < |st.log| && |st.log| == |st.ends| && SectionOk(al, st, s) && Next(st.log[s], s * SEC, e)
    ensures e.pos == st.ends[s] && s * SEC <= e.pos
  {
    if st.log[s] != [] { PosInside(al, st.log[s], s * SEC, |st.log[s]| - 1); }
  }

  /** Every entry of a section lies between its beginning and its end. */
  lemma {:induction false} PosInside(al: seq<int>, es: seq<Entry>, lo: int, k: nat)
    requires Flow(al, es, lo) && k < |es|
    ensures lo <= es[k].pos && es[k].pos + Slots(es[k].act) <= EndPos(es, lo)
    decreases |es| - k
  {
    PosFrom(al, es, lo, k);
    if k + 1 < |es| {
      assert Follows(es[k], es[k + 1]) by { assert Follows(es[k + 1 - 1], es[k + 1]); }
      PosInside(al, es, lo, k + 1);
    }
  }

  lemma {:induction false} PosFrom(al: seq<int>, es: seq<Entry>, lo: int, k: nat)
    requires Flow(al, es, lo) && k < |es|
    ensures lo <= es[k].pos
  {
    if k > 0 {
      PosFrom(al, es, lo, k - 1);
      assert Follows(es[k - 1], es[k]);
    }
  }

  lemma GrowSection(al: seq<int>, st: State, s: nat, e: Entry, l': Links)
    requires s < |st.log| && |st.log| == |st.ends| && AtAction(al, e) && Next(st.log[s], s * SEC, e)
    requires Placed(st.log[s] + [e], |st.log[s]|) && e.pos + Slots(e.act) < (s + 1) * SEC
    requires Written(st.l, l', st.log[s], e) && SectionOk(al, st, s)
    ensures SectionOk(al, Extend(st, s, e, l'), s)
  {
    var es, st' := st.log[s], Extend(st, s, e, l');
    hide SlotOk, LinksOk, AtAction, Placed;
    GrowFlow(al, es, s * SEC, e);
    forall k | 0 <= k < |es| + 1 ensures Placed(es + [e], k) {
      if k < |es| { PlacedMore(es, e, k); }
    }
    forall k | 0 <= k < |es| + 1 ensures SlotOk(l', es + [e], k) {
      if k < |es| {
        PosInside(al, es, s * SEC, k);
        SlotStays(st.l, l', es, e, k, es);
        SlotMore(l', es, e, k);
      }
    }
  }

  lemma GrowFlow(al: seq<int>, es: seq<Entry>, lo: int, e: Entry)
    requires Flow(al, es, lo) && AtAction(al, e) && Next(es, lo, e)
    ensures Flow(al, es + [e], lo) && EndPos(es + [e], lo) == e.pos + Slots(e.act)
  {}

  lemma PlacedMore(es: seq<Entry>, e: Entry, k: nat)
    requires k < |es| && Placed(es, k)
    ensures Placed(es + [e], k)
  {}

  lemma SlotMore(l: Links, es: seq<Entry>, e: Entry, k: nat)
    requires k < |es| && SlotOk(l, es, k)
    ensures SlotOk(l, es + [e], k)
  {
    OffPrefix(es, [e], k);
    OffPrefix(es, [e], k + 1);
  }

  /** The words of an entry elsewhere are untouched. */
  lemma SlotStays(l: Links, l': Links, es: seq<Entry>, e: Entry, k: nat, here: seq<Entry>)
    requires Written(l, l', here, e) && k < |es| && SlotOk(l, es, k)
    requires es[k].pos + Slots(es[k].act) <= e.pos || e.pos < es[k].pos
    ensures SlotOk(l', es, k)
  {
    var f := es[k];
    forall q, v | Word(l, q, v) && f.pos <= q < f.pos + Slots(f.act) ensures Word(l', q, v) {
      NoRefMore(l.hist, e, q);
    }
  }

  lemma NoRefMore(hist: seq<Event>, e: Entry, q: int)
    requires NoRef(hist, q) && q != e.pos
    ensures NoRef(hist + EventsOf(e), q)
  {}

  lemma OtherSection(al: seq<int>, st: State, s: nat, e: Entry, l': Links, t: nat)
    requires s < |st.log| && t < |st.log| && s != t && |st.log| == |st.ends| && s * SEC <= e.pos < (s + 1) * SEC
    requires Written(st.l, l', st.log[s], e) && SectionOk(al, st, t)
    ensures SectionOk(al, Extend(st, s, e, l'), t)
  {
    hide SlotOk, LinksOk, AtAction, Placed, Written;
    forall k | 0 <= k < |st.log[t]| ensures SlotOk(l', st.log[t], k) {
      PosInside(al, st.log[t], t * SEC, k);
      SlotStays(st.l, l', st.log[t], e, k, st.log[s]);
    }
  }

  lemma GrowEnds(st: State, s: nat, e: Entry, l': Links, q: int)
    requires s < |st.log| && |st.log| == |st.ends| && e.pos == st.ends[s] && e.pos + Slots(e.act) < (s + 1) * SEC
    requires s * SEC <= e.pos && q in l'.b && Written(st.l, l', st.log[s], e)
    requires q in st.l.b ==> BelowEnd(q, st.ends)
    ensures BelowEnd(q, st.ends[s := e.pos + Slots(e.act)])
  {
    if q !in st.l.b { assert q / SEC == s; }
  }

  lemma HappenedMore(hist: seq<Event>, more: seq<Event>, f: Entry)
    requires Happened(hist, f)
    ensures Happened(hist + more, f)
  {
    if EventsOf(f) != [] {
      var i :| 0 <= i < |hist| && hist[i] == EventsOf(f)[0];
      assert (hist + more)[i] == EventsOf(f)[0];
    }
  }

  lemma HappenedNow(hist: seq<Event>, e: Entry)
    ensures Happened(hist + EventsOf(e), e)
  {
    if EventsOf(e) != [] { assert (hist + EventsOf(e))[|hist|] == EventsOf(e)[0]; }
  }

  lemma DefinedMore(log: seq<seq<Entry>>, s: nat, e: Entry, d: Event)
    requires s < |log| && Defined(log, d)
    ensures Defined(log[s := log[s] + [e]], d)
  {
    if d.Def? {
      var t, k :| 0 <= t < |log| && 0 <= k < |log[t]| && EventsOf(log[t][k]) == [d];
      assert log[s := log[s] + [e]][t][k] == log[t][k];
    }
  }

  lemma DefinedNow(log: seq<seq<Entry>>, s: nat, e: Entry, hist: seq<Event>, i: nat)
    requires s < |log| && |hist| <= i < |hist + EventsOf(e)|
    ensures Defined(log[s := log[s] + [e]], (hist + EventsOf(e))[i])
  {
    var log' := log[s := log[s] + [e]];
    assert log'[s][|log[s]|] == e;
    assert EventsOf(e) == [(hist + EventsOf(e))[i]];
  }
}
