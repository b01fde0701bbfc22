/** The first pass of DynASM, dasm_put: what is stored for an action list and its arguments. */
module Put {
  import opened Layout
  import opened Labels
  import opened Buffers

  predicate NeedsRun(a: Action, run: nat) {
    match a
    case Rel(_, op, _) => run >= 1 && (Saving(op) == 4 ==> run >= 2)
    case Imm(code, _) => code == IMM_WB || code == IMM_DB ==> run >= 2
    case _ => true
  }

  function RunAfter(a: Action, run: nat): nat {
    if OneByte(a) then run + 1 else 0
  }

  /** An action list as the DynASM preprocessor writes it, from p on, with enough arguments. Behind
      `run` plain bytes: a branch or a shrinkable immediate follows the bytes of its opcode. */
  predicate WellFormed(al: seq<int>, p: int, args: seq<int>, a: nat, run: nat)
    decreases |al| - p
  {
    Legal(al, p, args, a) &&
    var act := ActionAt(al, p, args, a);
    NeedsRun(act, run)
    && (act.Rel? ==> EndsIn(al, p, act.op))
    && (act.Stop? || WellFormed(al, p + Len(act), args, a + Args(act), RunAfter(act, run)))
  }

  /** The byte in front of p is op: the operand of an escape, or a plain byte. */
  predicate EndsIn(al: seq<int>, p: int, op: int) {
    1 <= p < |al| && al[p - 1] == op
  }

  /** The entries of the actions from p on. */
  function Parsed(al: seq<int>, p: int, args: seq<int>, a: nat, pos: int, run: nat): (es: seq<Entry>)
    requires WellFormed(al, p, args, a, run)
    ensures es != [] && es[0].p == p && es[0].pos == pos
    decreases |al| - p
  {
    var e := Entry(p, pos, ActionAt(al, p, args, a));
    if e.act.Stop? then [e]
    else [e] + Parsed(al, p + Len(e.act), args, a + Args(e.act), pos + Slots(e.act), RunAfter(e.act, run))
  }

  function Events(es: seq<Entry>): seq<Event> {
    if es == [] then [] else EventsOf(es[0]) + Events(es[1..])
  }

  /** Buffer words the actions from p on take. */
  function SlotsFrom(al: seq<int>, p: int, args: seq<int>, a: nat, run: nat): (n: nat)
    requires WellFormed(al, p, args, a, run)
    decreases |al| - p
  {
    var act := ActionAt(al, p, args, a);
    Slots(act) + if act.Stop? then 0 else SlotsFrom(al, p + Len(act), args, a + Args(act), RunAfter(act, run))
  }

  /** The last `run` entries are plain bytes, the very last one in front of p. */
  ghost predicate PlainRun(al: seq<int>, es: seq<Entry>, run: nat, p: int) {
    run <= |es| && (forall k | |es| - run <= k < |es| :: OneByte(es[k].act))
    && (run > 0 ==> p > 0 && p <= |al| && al[p - 1] == es[|es| - 1].act.byte)
  }

  /** The action at p comes next. */
  predicate Awaits(es: seq<Entry>, p: int) {
    es != [] && match es[|es| - 1].act
      case Begin(start) => p == start
      case Stop(_) => false
      case _ => p == es[|es| - 1].p + Len(es[|es| - 1].act)
  }

  lemma RunPlaces(al: seq<int>, es: seq<Entry>, run: nat, p: int, e: Entry)
    requires PlainRun(al, es, run, p) && NeedsRun(e.act, run) && (e.act.Rel? ==> EndsIn(al, p, e.act.op))
    ensures Placed(es + [e], |es|)
  {}

  lemma RunMore(al: seq<int>, es: seq<Entry>, run: nat, p: int, e: Entry)
    requires PlainRun(al, es, run, p) && AtAction(al, e) && e.p == p && (e.act.Lit? || e.act.Esc? ==> p >= 0)
    ensures PlainRun(al, es + [e], RunAfter(e.act, run), p + Len(e.act))
  {}

  lemma OffEnd(es: seq<Entry>, e: Entry)
    ensures Off(es + [e], |es|) == Off(es, |es|) && Off(es + [e], |es| + 1) == Off(es, |es|) + Size(e.act)
  {
    OffPrefix(es, [e], |es|);
  }

  /** Nothing is stored yet at the end of a section. */
  lemma NothingThere(al: seq<int>, st: State, s: nat, q: int)
    requires StateOk(al, st) && s < |st.ends| && st.ends[s] <= q < (s + 1) * SEC && s * SEC <= q
    ensures q !in st.l.b && NoRef(st.l.hist, q)
  {
    assert q / SEC == s;
    forall i | 0 <= i < |st.l.hist| && st.l.hist[i].Ref? ensures st.l.hist[i].pos != q {
      assert RefOk(st.l, i);
    }
  }

  /** A word of an action that has nothing to do with labels. */
  lemma PlainWord(al: seq<int>, st: State, s: nat, e: Entry, v: int)
    requires StateOk(al, st) && s < |st.log| && s < |st.ends| && e.pos == st.ends[s] && s * SEC <= e.pos && e.pos + 1 < (s + 1) * SEC
    requires match e.act case Begin(start) => v == start case Imm(_, n) => v == n case Space(n, _) => v == n
             case Align(mask) => v == Off(st.log[s], |st.log[s]|) + mask case _ => false
    ensures Written(st.l, st.l.(b := st.l.b[e.pos := v]), st.log[s], e)
  {
    NothingThere(al, st, s, e.pos);
    OtherWord(st.l, e.pos, v);
    OffEnd(st.log[s], e);
    hide StateOk, LinksOk;
    assert (st.log[s] + [e])[|st.log[s]|] == e;
  }

  /** An action without words. */
  lemma NoWord(al: seq<int>, st: State, s: nat, e: Entry)
    requires StateOk(al, st) && s < |st.log| && (OneByte(e.act) || e.act.Stop?)
    ensures Written(st.l, st.l, st.log[s], e)
  {
    assert (st.log[s] + [e])[|st.log[s]|] == e;
    assert st.l.hist + [] == st.l.hist;
    hide LinksOk, SectionOk;
  }

  /** A reference, with the estimate behind it if it is a branch. */
  lemma RefWords(al: seq<int>, st: State, s: nat, e: Entry, v: int, l: Links, l': Links)
    requires StateOk(al, st) && s < |st.log| && s < |st.ends| && e.pos == st.ends[s] && s * SEC <= e.pos && e.pos + 2 < (s + 1) * SEC
    requires IsRef(e.act) && LinksOk(l) && l.hist == st.l.hist + EventsOf(e)
    requires l.b == st.l.b[e.pos := v]
    requires l' == if e.act.Rel? then l.(b := l.b[e.pos + 1 := Off(st.log[s], |st.log[s]|) + 4]) else l
    ensures Written(st.l, l', st.log[s], e)
  {
    NothingThere(al, st, s, e.pos);
    NothingThere(al, st, s, e.pos + 1);
    OffEnd(st.log[s], e);
    assert (st.log[s] + [e])[|st.log[s]|] == e;
    NoRefMore(st.l.hist, e, e.pos + 1);
    hide StateOk;
    if e.act.Rel? { OtherWord(l, e.pos + 1, Off(st.log[s], |st.log[s]|) + 4); }
    hide LinksOk;
  }

  /** A label: the chain is collapsed, and the estimate stored. */
  lemma LabelWord(al: seq<int>, st: State, s: nat, e: Entry, id: Id, l: Links)
    requires StateOk(al, st) && s < |st.log| && s < |st.ends| && e.pos == st.ends[s] && s * SEC <= e.pos && e.pos + 1 < (s + 1) * SEC
    requires e.act.Label? && EventsOf(e) == [Def(id, e.pos)] && id in st.l.chain && LinksOk(l)
    requires l.hist == st.l.hist + [Def(id, e.pos)] && l.b == Collapse(st.l.b, st.l.chain[id], e.pos)
    ensures Written(st.l, l.(b := l.b[e.pos := Off(st.log[s], |st.log[s]|)]), st.log[s], e)
  {
    hide StateOk, LinksOk, SectionOk, NoRef;
    StateParts(al, st);
    NothingThere(al, st, s, e.pos);
    DefNoRef(st.l.hist, id, e.pos, e.pos);
    OtherWord(l, e.pos, Off(st.log[s], |st.log[s]|));
    OffEnd(st.log[s], e);
    assert (st.log[s] + [e])[|st.log[s]|] == e;
    SameKeysOfLinks(st.l);
    forall q <- st.l.b | NoRef(st.l.hist, q) ensures q !in st.l.chain[id] {
      NobodyWaits(st.l, id, q);
    }
  }

  lemma SameKeysOfLinks(l: Links)
    requires LinksOk(l)
    ensures l.head.Keys == l.chain.Keys
  {}

  lemma DefNoRef(hist: seq<Event>, id: Id, pos: int, q: int)
    requires NoRef(hist, q)
    ensures NoRef(hist + [Def(id, pos)], q)
  {}
}
