/** DynASM's encoding state and its three passes. */
module Encoder {
  import opened Layout
  import opened Labels
  import opened Buffers
  import opened Put
  import opened Program
  import opened Linking
  import opened Resolve
  import opened Emit

  const S_RANGE_I: int := 0x11000000
  const S_RANGE_SEC: int := 0x12000000
  const S_RANGE_LG: int := 0x13000000
  const S_RANGE_PC: int := 0x14000000
  const S_UNDEF_L: int := 0x21000000
  const S_UNDEF_PC: int := 0x22000000
  const S_MATCH_SEC: int := 0x03000000
  const S_PHASE: int := 0x02000000
  const S_OK: int := 0

  /** The ids that have a word in the label arrays. */
  function Ids(lg: nat, pc: nat): set<Id> {
    (set i | 0 <= i < lg :: LG(i)) + (set i | 0 <= i < pc :: PC(i))
  }

  function Heads(lg: seq<int>, pc: seq<int>): (m: map<Id, int>)
  {
    map id <- Ids(|lg|, |pc|) :: if id.LG? then lg[id.n] else pc[id.n]
  }

  function NoChain(id: Id): seq<int> { [] }

  lemma HeadOf(lg: seq<int>, pc: seq<int>, id: Id)
    requires id in Ids(|lg|, |pc|)
    ensures id in Heads(lg, pc) && 0 <= id.n && (id.LG? ==> id.n < |lg| && Heads(lg, pc)[id] == lg[id.n])
    ensures id.PC? ==> id.n < |pc| && Heads(lg, pc)[id] == pc[id.n]
  {}

  lemma HeadsSet(lg: seq<int>, pc: seq<int>, id: Id, v: int)
    requires id in Ids(|lg|, |pc|)
    ensures id.LG? ==> 0 <= id.n < |lg| && Heads(lg[id.n := v], pc) == Heads(lg, pc)[id := v]
    ensures id.PC? ==> 0 <= id.n < |pc| && Heads(lg, pc[id.n := v]) == Heads(lg, pc)[id := v]
  {}

  /** A backward reference to a local label is possible: the label is defined, and no forward reference
      waits for its next definition. */
  ghost predicate Reachable(hist: seq<Event>, id: Id) {
    LastDef(hist, |hist|, id) > 0 && forall r :: !PendingRef(hist, id, r)
  }

  ghost predicate TargetFits(pc: bool, ref: int, hist: seq<Event>, lgs: nat, pcs: nat) {
    if pc then 0 <= ref < pcs
    else ref > 246 || (if ref < 10 then Reachable(hist, LG(ref)) else ref < lgs)
  }

  /** The range checks of an action, with so many labels, after these events. */
  ghost predicate Passes(act: Action, hist: seq<Event>, lgs: nat, pcs: nat) {
    match act
    case Imm(code, n) => ImmFits(code, n)
    case Rel(pc, _, ref) => TargetFits(pc, ref, hist, lgs, pcs)
    case ImmLabel(pc, ref) => TargetFits(pc, ref, hist, lgs, pcs)
    case Label(pc, index) => 0 <= index < (if pc then pcs else lgs)
    case _ => true
  }

  /** Those of all actions from p on. */
  ghost predicate AllPass(al: seq<int>, p: int, args: seq<int>, a: nat, pos: int, run: nat, hist: seq<Event>, lgs: nat, pcs: nat)
    requires WellFormed(al, p, args, a, run)
    decreases |al| - p
  {
    var e := Entry(p, pos, ActionAt(al, p, args, a));
    && Passes(e.act, hist, lgs, pcs)
    && (e.act.Stop? || AllPass(al, p + Len(e.act), args, a + Args(e.act), pos + Slots(e.act), RunAfter(e.act, run), hist + EventsOf(e), lgs, pcs))
  }

  /** The word of a label tells the same. */
  predicate WordFits(pc: bool, ref: int, lg: seq<int>, pcs: nat) {
    if pc then 0 <= ref < pcs
    else ref > 246 || (0 <= ref < |lg| && (ref < 10 ==> lg[ref] < 0))
  }

  lemma WordTells(l: Links, lg: seq<int>, pc: seq<int>, isPc: bool, ref: int)
    requires l.head == Heads(lg, pc) && 10 <= |lg| && (!isPc ==> ref > 0) && LinksOk(l)
    ensures WordFits(isPc, ref, lg, |pc|) <==> TargetFits(isPc, ref, l.hist, |lg|, |pc|)
  {
    hide LinksOk, Reachable;
    if !isPc && ref < 10 {
      HeadOf(lg, pc, LG(ref));
      BackwardIff(l, LG(ref));
    }
  }

  lemma BackwardIff(l: Links, id: Id)
    requires LinksOk(l) && id in l.head
    ensures l.head[id] < 0 <==> Reachable(l.hist, id)
  {
    assert HeadOk(l, id);
    if l.chain[id] == [] {
      forall i | 0 <= i < |l.hist| && l.hist[i].Ref? && l.hist[i].id == id ensures !PendingAt(l.hist, i) {
        assert RefOk(l, i);
      }
    } else {
      assert PendingRef(l.hist, id, l.chain[id][0]);
    }
  }

  /** The entry is a reference to id. */
  ghost predicate RefersTo(e: Entry, id: Id, fwd: bool) {
    var events := EventsOf(e);
    && |events| == 1 && events[0].Ref? && events[0].id == id && events[0].pos == e.pos
    && (events[0].mode.Any? <==> !IsLocal(id)) && (fwd <==> events[0].mode.Fwd?)
  }

  class Dasm {
    const actionlist: seq<int>
    var lglabels: seq<int>
    var pclabels: seq<int>
    var b: map<int, int>          // the section buffers, by biased position
    var section: nat
    var secpos: seq<int>
    var secofs: seq<int>
    var globals: seq<int>         // addresses of the globals, from number 10 on
    var codesize: int
    var status: int
    ghost var log: seq<seq<Entry>>
    ghost var hist: seq<Event>
    ghost var chain: map<Id, seq<int>>
    ghost var code: Program       // set by the second pass
    ghost var tgt: seq<int>

    ghost function L(): Links
      reads this
    {
      Links(b, Heads(lglabels, pclabels), chain, hist)
    }

    /** The state in the middle of a dasm_put that has come to position pos. */
    ghost function During(pos: int): State
      requires section < |secpos|
      reads this
    {
      State(L(), log, secpos[section := pos])
    }

    ghost predicate Valid()
      reads this
    {
      && status == S_OK && section < |log| && |secofs| == |log| && |secpos| == |log| && |lglabels| == |globals| + 10
      && StateOk(actionlist, State(L(), log, secpos))
      && (forall s | 0 <= s < |log| :: secofs[s] == Off(log[s], |log[s]|) && Finished(log[s]))
    }

    /** dasm_init, dasm_setupglobal, dasm_growpc and dasm_setup */
    constructor (maxsection: nat, gl: seq<int>, maxpc: nat, actions: seq<int>)
      requires maxsection > 0
      ensures Valid() && hist == [] && log == seq(maxsection, i => []) && actionlist == actions
      ensures |lglabels| == 10 + |gl| && |pclabels| == maxpc && globals == gl
    {
      var maxgl := |gl|;
      globals := gl;
      actionlist := actions;
      lglabels, pclabels := seq(10 + maxgl, i => 0), seq(maxpc, i => 0);
      b, section, codesize, status := map[], 0, 0, S_OK;
      secpos, secofs := seq(maxsection, i => i * SEC), seq(maxsection, i => 0);
      log, hist := seq(maxsection, i => []), [];
      chain := map id <- Ids(10 + maxgl, maxpc) :: NoChain(id);
      code, tgt := Whole([], []), [];
      new;
      assert LinksOk(L()) by { NothingYet(L()); }
    }

    /** The word of a label. */
    function Word(id: Id): int
      requires id in Ids(|lglabels|, |pclabels|)
      reads this
    {
      if id.LG? then lglabels[id.n] else pclabels[id.n]
    }

    method SetWord(id: Id, v: int)
      requires id in Ids(|lglabels|, |pclabels|)
      modifies this`lglabels, this`pclabels
      ensures Heads(lglabels, pclabels) == Heads(old(lglabels), old(pclabels))[id := v]
      ensures |lglabels| == old(|lglabels|) && |pclabels| == old(|pclabels|)
    {
      HeadsSet(lglabels, pclabels, id, v);
      if id.LG? {
        lglabels := lglabels[id.n := v];
      } else {
        pclabels := pclabels[id.n := v];
      }
    }

    /** putrel and linkrel: store the label's position, or join its chain; a forward local
        reference starts a new chain if the label exists. */
    method PutReference(id: Id, ghost mode: Mode, fwd: bool, pos: int)
      requires id in Ids(|lglabels|, |pclabels|) && LinksOk(L()) && NoRef(hist, pos) && pos > 0
      requires (mode.Any? <==> !IsLocal(id)) && (fwd <==> mode.Fwd?) && (mode.Back? ==> Word(id) < 0)
      modifies this`b, this`lglabels, this`pclabels, this`hist, this`chain
      ensures LinksOk(L()) && hist == old(hist) + [Ref(id, pos, mode)] && b.Keys == old(b).Keys + {pos}
      ensures pos in b && b == old(b)[pos := b[pos]]
      ensures |lglabels| == old(|lglabels|) && |pclabels| == old(|pclabels|)
    {
      hide LinksOk, Heads;
      ghost var l := L();
      HeadOf(lglabels, pclabels, id);
      var n := Word(id);
      if n < 0 && !fwd {
        ReferKnown(l, id, pos, mode);
        b := b[pos := -n];
      } else {
        SameKeysOfLinks(l);
        ReferLater(l, id, pos, mode);
        b := b[pos := if n < 0 then 0 else n];
        SetWord(id, pos);
        chain := chain[id := [pos] + chain[id]];
      }
      hist := hist + [Ref(id, pos, mode)];
    }

    /** Walk the chain that starts at n and store `to` in all its words. */
    method CollapseChain(first: int, to: int, ghost c: seq<int>)
      requires Threaded(b, c) && first == NextLink(c, 0)
      modifies this`b
      ensures b == Collapse(old(b), c, to)
    {
      hide Threaded, Collapse;
      var n := first;
      ghost var k := 0;
      CollapseNone(b, to);
      LinkPositive(b, c);
      assert c[..0] == [];
      while n > 0
        invariant k <= |c| && n == NextLink(c, k) && b == Collapse(old(b), c[..k], to)
        invariant n > 0 <==> k < |c|
        decreases |c| - k
      {
        CollapseStep(old(b), c, k, to);
        var next := b[n];
        b := b[n := to];
        n := next;
        k := k + 1;
      }
      assert c[..k] == c;
    }

    /** putlabel */
    method PutLabel(id: Id, pos: int)
      requires id in Ids(|lglabels|, |pclabels|) && LinksOk(L()) && NoRef(hist, pos) && pos > 0
      modifies this`b, this`lglabels, this`pclabels, this`hist, this`chain
      ensures LinksOk(L()) && hist == old(hist) + [Def(id, pos)]
      ensures id in old(chain) && b == Collapse(old(b), old(chain)[id], pos)
      ensures |lglabels| == old(|lglabels|) && |pclabels| == old(|pclabels|)
    {
      hide LinksOk;
      ghost var l := L();
      SameKeysOfLinks(l);
      ChainOf(l, id);
      Define(l, id, pos);
      var n := Word(id);
      if n > 0 {
        CollapseChain(n, pos, chain[id]);
      } else {
        CollapseNone(b, pos);
      }
      SetWord(id, -pos);
      chain := chain[id := []];
      hist := hist + [Def(id, pos)];
    }

    // ---- Pass 1 ---------------------------------------------------------------------------

    /** In the middle of dasm_put: the action at p is next, with arguments from a on. */
    ghost predicate Ready(p: int, args: seq<int>, a: nat, pos: int, ofs: int, run: nat)
      reads this
    {
      && status == S_OK && section < |log| && |secpos| == |log| && |secofs| == |log| && 10 <= |lglabels|
      && WellFormed(actionlist, p, args, a, run) && pos + SlotsFrom(actionlist, p, args, a, run) + 1 < (section + 1) * SEC
      && ofs == Off(log[section], |log[section]|)
      && Awaits(log[section], p) && PlainRun(actionlist, log[section], run, p)
      && StateOk(actionlist, During(pos))
    }

    /** Plain bytes. */
    method PutByte(p: int, ofs: int) returns (p': int, ofs': int)
      requires 0 <= p < |actionlist|
      ensures ofs' == ofs + 1 && p' == p + if actionlist[p] == ESC then 2 else 1
    {
      p', ofs' := p + 1, ofs + 1;
      if actionlist[p] == ESC {
        p' := p' + 1;
      }
    }

    /** Immediates and space: range checks, and the size. */
    method PutArgument(p: int, n: int, pos: int, ofs: int) returns (p': int, ofs': int)
      requires 0 <= p < |actionlist| && (IsImm(actionlist[p]) || actionlist[p] == SPACE) && status == S_OK
      modifies this`b, this`status
      ensures b == old(b)[pos := n] && p' == p + if actionlist[p] == SPACE then 2 else 1
      ensures ofs' == ofs + if IsImm(actionlist[p]) then ImmSize(actionlist[p], n) else n
      ensures status == if ImmFits(actionlist[p], n) then S_OK else S_RANGE_I + p
    {
      var action := actionlist[p];
      p', ofs' := p + 1, ofs;
      b := b[pos := n];
      if action == IMM_DB {
        ofs' := ofs' + if Short(n) then 1 else 4;
      } else if action == IMM_D {
        ofs' := ofs' + 4;
      } else if action == IMM_S {
        if !Short(n) { status := S_RANGE_I + p; }
        ofs' := ofs' + 1;
      } else if action == IMM_B {
        if !(0 <= n < 256) { status := S_RANGE_I + p; }
        ofs' := ofs' + 1;
      } else if action == IMM_WB && Short(n) {
        ofs' := ofs' + 1;
      } else if action == IMM_WB || action == IMM_W {
        if !(0 <= n < 65536) { status := S_RANGE_I + p; }
        ofs' := ofs' + 2;
      } else {
        p' := p' + 1;
        ofs' := ofs' + n;
      }
    }

    /** Branches, and addresses of labels. */
    method PutRef(p: int, args: seq<int>, a: nat, pos: int, ofs: int, ghost e: Entry) returns (p': int, a': nat, pos': int, ofs': int)
      requires status == S_OK && section < |log| && |secpos| == |log| && StateOk(actionlist, During(pos)) && 10 <= |lglabels|
      requires Legal(actionlist, p, args, a) && e == Entry(p, pos, ActionAt(actionlist, p, args, a)) && IsRef(e.act)
      requires section * SEC < pos && pos + 2 < (section + 1) * SEC && ofs == Off(log[section], |log[section]|)
      modifies this`b, this`lglabels, this`pclabels, this`hist, this`chain, this`status
      ensures status == S_OK ==> Written(old(L()), L(), log[section], e)
      ensures status == S_OK ==> p' == p + Len(e.act) && a' == a + Args(e.act) && pos' == pos + Slots(e.act) && ofs' == ofs + 4
      ensures status == S_OK <==> Passes(e.act, old(hist), |lglabels|, |pclabels|)
      ensures |lglabels| == old(|lglabels|) && |pclabels| == old(|pclabels|)
    {
      hide StateOk, LinksOk, Written, Heads;
      ghost var st := During(pos);
      StateParts(actionlist, st);
      NothingThere(actionlist, st, section, pos);
      WordTells(L(), lglabels, pclabels, e.act.pc, e.act.ref);
      var id, fwd;
      p', a', id, fwd := RefTarget(p, args, a, e);
      pos', ofs' := pos, ofs;
      if status != S_OK {
        return;
      }
      PutReference(id, EventsOf(e)[0].mode, fwd, pos);
      ghost var l1 := L();
      pos' := pos' + 1;
      ofs' := ofs' + 4;
      if actionlist[p] == REL_LG || actionlist[p] == REL_PC {
        b := b[pos' := ofs'];
        pos' := pos' + 1;
      }
      RefWords(actionlist, st, section, e, l1.b[pos], l1, L());
    }

    /** The label a branch or an address refers to. */
    method RefTarget(p: int, args: seq<int>, a: nat, ghost e: Entry) returns (p': int, a': nat, id: Id, fwd: bool)
      requires status == S_OK && 10 <= |lglabels|
      requires Legal(actionlist, p, args, a) && e == Entry(p, e.pos, ActionAt(actionlist, p, args, a)) && IsRef(e.act)
      modifies this`status
      ensures status == S_OK <==> WordFits(e.act.pc, e.act.ref, lglabels, |pclabels|)
      ensures status == S_OK ==> p' == p + Len(e.act) && a' == a + Args(e.act) && id in Ids(|lglabels|, |pclabels|)
      ensures status == S_OK ==> RefersTo(e, id, fwd) && (EventsOf(e)[0].mode.Back? ==> Word(id) < 0)
    {
      var action := actionlist[p];
      p', a', id, fwd := p + 1, a, LG(0), false;
      if action == REL_LG || action == IMM_LG {
        var n := actionlist[p'];
        p' := p' + 1;
        if n <= 246 {
          if !(n >= 10 || lglabels[n] < 0) {
            status := S_RANGE_LG + p' - 1;
            return;
          }
          if n >= |lglabels| {
            status := S_RANGE_LG + p' - 1;
            return;
          }
          id := LG(n);
        } else {
          id, fwd := LG(n - 246), true;
        }
      } else {
        var n := args[a];
        a' := a + 1;
        if !(0 <= n < |pclabels|) {
          status := S_RANGE_PC + p' - 1;
          return;
        }
        id := PC(n);
      }
    }

    /** Labels. */
    method PutDef(p: int, args: seq<int>, a: nat, pos: int, ofs: int, ghost e: Entry) returns (p': int, a': nat)
      requires status == S_OK && section < |log| && |secpos| == |log| && StateOk(actionlist, During(pos)) && 10 <= |lglabels|
      requires Legal(actionlist, p, args, a) && e == Entry(p, pos, ActionAt(actionlist, p, args, a)) && e.act.Label?
      requires section * SEC < pos && pos + 1 < (section + 1) * SEC && ofs == Off(log[section], |log[section]|)
      modifies this`b, this`lglabels, this`pclabels, this`hist, this`chain, this`status
      ensures status == S_OK ==> Written(old(L()), L(), log[section], e)
      ensures status == S_OK ==> p' == p + Len(e.act) && a' == a + Args(e.act)
      ensures status == S_OK <==> Passes(e.act, old(hist), |lglabels|, |pclabels|)
      ensures |lglabels| == old(|lglabels|) && |pclabels| == old(|pclabels|)
    {
      hide StateOk, LinksOk, Written, Heads;
      ghost var st := During(pos);
      StateParts(actionlist, st);
      NothingThere(actionlist, st, section, pos);
      p', a' := p + 1, a;
      var id := LG(0);
      if actionlist[p] == LABEL_LG {
        var n := actionlist[p'];
        p' := p' + 1;
        if n >= |lglabels| {
          status := S_RANGE_LG + p' - 1;
          return;
        }
        id := LG(n);
      } else {
        var n := args[a];
        a' := a + 1;
        if !(0 <= n < |pclabels|) {
          status := S_RANGE_PC + p' - 1;
          return;
        }
        id := PC(n);
      }
      PutLabel(id, pos);
      ghost var l1 := L();
      b := b[pos := ofs];
      LabelWord(actionlist, st, section, e, id, l1);
    }

    /** One turn of the loop of dasm_put. */
    method PutAction(p: int, args: seq<int>, a: nat, pos: int, ofs: int, ghost run: nat)
      returns (p': int, a': nat, pos': int, ofs': int, stop: bool)
      requires Ready(p, args, a, pos, ofs, run)
      modifies this`b, this`lglabels, this`pclabels, this`hist, this`chain, this`status, this`log
      ensures |lglabels| == old(|lglabels|) && |pclabels| == old(|pclabels|)
      ensures status == S_OK <==> Passes(ActionAt(actionlist, p, args, a), old(hist), |lglabels|, |pclabels|)
      ensures var e := Entry(p, pos, ActionAt(actionlist, p, args, a));
        status == S_OK ==>
          && p' == p + Len(e.act) && a' == a + Args(e.act) && pos' == pos + Slots(e.act) && ofs' == ofs + Size(e.act)
          && stop == e.act.Stop? && log == old(log)[section := old(log)[section] + [e]] && hist == old(hist) + EventsOf(e)
          && StateOk(actionlist, During(pos'))
    {
      hide StateOk, LinksOk, Written, Heads, WellFormed, TargetFits;
      ghost var st := During(pos);
      NextAction(actionlist, st, section, p, args, a, pos, run);
      ghost var e := Entry(p, pos, ActionAt(actionlist, p, args, a));
      p', a', pos', ofs', stop := p + 1, a, pos, ofs, false;
      var action := actionlist[p];
      if action < 233 || action == ESC {
        p', ofs' := PutByte(p, ofs);
        NoWord(actionlist, st, section, e);
      } else if action < REL_LG {
        p', ofs' := PutArgument(p, args[a], pos, ofs);
        a', pos' := a + 1, pos + 1;
        PlainWord(actionlist, st, section, e, args[a]);
      } else if action <= IMM_PC {
        p', a', pos', ofs' := PutRef(p, args, a, pos, ofs, e);
      } else if action <= LABEL_PC {
        p', a' := PutDef(p, args, a, pos, ofs, e);
        pos' := pos + 1;
      } else if action == ALIGN {
        ofs' := ofs + actionlist[p'];
        p' := p' + 1;
        b := b[pos := ofs'];
        pos' := pos + 1;
        PlainWord(actionlist, st, section, e, ofs');
      } else {
        stop := true;
        NoWord(actionlist, st, section, e);
      }
      if status == S_OK {
        WrittenParts(st.l, L(), log[section], e);
        log := log[section := log[section] + [e]];
        Grow(actionlist, st, section, e, L());
        assert secpos[section := pos][section := pos'] == secpos[section := pos'];
        assert During(pos') == Extend(st, section, e, L());
      }
    }

    /** dasm_put: everything up to the end of the action list is stored, or an error is raised. */
    method Put(start: nat, args: seq<int>)
      requires Valid() && WellFormed(actionlist, start, args, 0, 0)
      requires secpos[section] + SlotsFrom(actionlist, start, args, 0, 0) + 2 < (section + 1) * SEC
      modifies this
      ensures status == S_OK <==>
        && AllPass(actionlist, start, args, 0, old(secpos[section]) + 1, 0, old(hist), |lglabels|, |pclabels|)
        && var es := Stored(actionlist, start, args, old(secpos[section]));
           NextSection(actionlist, es[|es| - 1], old(section)) < old(|log|)
      ensures status == S_OK ==> Valid() && |log| == old(|log|) && globals == old(globals)
      ensures status == S_OK ==>
        var es := Stored(actionlist, start, args, old(secpos[section]));
        log == old(log)[old(section) := old(log[section]) + es] && hist == old(hist) + Events(es)
        && section == NextSection(actionlist, es[|es| - 1], old(section))
      ensures |lglabels| == old(|lglabels|) && |pclabels| == old(|pclabels|)
    {
      hide StateOk, LinksOk, Written, Heads, WellFormed, Parsed, SlotsFrom, Off, Events, PlainRun, Awaits, AtEnd, AllPass;
      var pos, ofs := secpos[section], secofs[section];
      StoredParts(actionlist, start, args, pos, log[section], hist);
      AfterBegin(actionlist, log[section], Entry(start, pos, Begin(start)));
      PutBegin(start);
      var p;
      p, pos, ofs := PutActions(start, args, pos + 1, ofs);
      if status == S_OK {
        FinishPut(p, pos, ofs);
      }
    }

    /** The loop of dasm_put. */
    method PutActions(start: nat, args: seq<int>, first: int, ofs0: int) returns (p: int, pos: int, ofs: int)
      requires Ready(start, args, 0, first, ofs0, 0)
      modifies this`b, this`lglabels, this`pclabels, this`hist, this`chain, this`status, this`log
      ensures |lglabels| == old(|lglabels|) && |pclabels| == old(|pclabels|)
      ensures status == S_OK <==> AllPass(actionlist, start, args, 0, first, 0, old(hist), |lglabels|, |pclabels|)
      ensures status == S_OK ==> AtEnd(p, pos, ofs) && section < old(|log|)
      ensures status == S_OK ==> log == old(log)[section := old(log)[section] + Parsed(actionlist, start, args, 0, first, 0)]
      ensures status == S_OK ==> hist == old(hist) + Events(Parsed(actionlist, start, args, 0, first, 0))
    {
      hide StateOk, LinksOk, Written, Heads, WellFormed, Parsed, SlotsFrom, Off, Events, PlainRun, Awaits, Passes;
      ghost var full := log[section] + Parsed(actionlist, start, args, 0, first, 0);
      ghost var all := hist + Events(Parsed(actionlist, start, args, 0, first, 0));
      var a: nat, stop := 0, false;
      p, pos, ofs := start, first, ofs0;
      ghost var run := 0;
      while !stop
        invariant status == S_OK && |log| == old(|log|) && section < |log| && log == old(log)[section := log[section]]
        invariant |lglabels| == old(|lglabels|) && |pclabels| == old(|pclabels|)
        invariant !stop ==> Ready(p, args, a, pos, ofs, run)
        invariant !stop ==> log[section] + Parsed(actionlist, p, args, a, pos, run) == full
        invariant !stop ==> hist + Events(Parsed(actionlist, p, args, a, pos, run)) == all
        invariant stop ==> AtEnd(p, pos, ofs) && log[section] == full && hist == all
        invariant AllPass(actionlist, start, args, 0, first, 0, old(hist), |lglabels|, |pclabels|)
          <==> (stop || AllPass(actionlist, p, args, a, pos, run, hist, |lglabels|, |pclabels|))
        decreases !stop, |actionlist| - p
      {
        ghost var es := log[section];
        ghost var e := OneStep(actionlist, p, args, a, pos, run, es, hist);
        p, a, pos, ofs, stop := PutAction(p, args, a, pos, ofs, run);
        if status != S_OK {
          return;
        }
        OffEnd(es, e);
        run := RunAfter(e.act, run);
      }
    }

    /** Switch the section if asked to, and store where this one ends. */
    method FinishPut(p: int, pos: int, ofs: int)
      requires AtEnd(p, pos, ofs) && |lglabels| == |globals| + 10
      requires forall s | 0 <= s < |log| && s != section :: secofs[s] == Off(log[s], |log[s]|) && Finished(log[s])
      modifies this`section, this`secpos, this`secofs, this`status
      ensures status == S_OK ==> Valid() && section == NextSection(actionlist, log[old(section)][|log[old(section)]| - 1], old(section))
      ensures status == S_OK <==> NextSection(actionlist, log[old(section)][|log[old(section)]| - 1], old(section)) < |log|
    {
      hide StateOk, LinksOk, Heads, Off, Finished;
      var sec := section;
      if actionlist[p - 1] == SECTION {
        var n := actionlist[p];
        if n >= |secpos| {
          status := S_RANGE_SEC + p - 1;
          return;
        }
        section := n;
      }
      secpos := secpos[sec := pos];
      secofs := secofs[sec := ofs];
    }

    /** dasm_put has come to the end of the action list. */
    ghost predicate AtEnd(p: int, pos: int, ofs: int)
      reads this
    {
      && status == S_OK && section < |log| && |secpos| == |log| && |secofs| == |log| && 10 <= |lglabels|
      && ofs == Off(log[section], |log[section]|) && Finished(log[section]) && StateOk(actionlist, During(pos))
      && 1 <= p <= |actionlist| && (actionlist[p - 1] == SECTION ==> p < |actionlist| && actionlist[p] >= 0)
      && log[section] != [] && LastIs(actionlist, log[section][|log[section]| - 1], p - 1)
    }

    /** b[pos++] = start */
    method PutBegin(start: nat)
      requires Valid() && secpos[section] + 2 < (section + 1) * SEC
      modifies this`b, this`log
      ensures StateOk(actionlist, During(secpos[section] + 1)) && hist == old(hist)
      ensures log == old(log)[section := old(log[section]) + [Entry(start, secpos[section], Begin(start))]]
    {
      hide StateOk, LinksOk, Written, Heads;
      ghost var st := State(L(), log, secpos);
      ghost var e := Entry(start, secpos[section], Begin(start));
      SectionEnd(actionlist, st, section, e);
      PlainWord(actionlist, st, section, e, start);
      b := b[secpos[section] := start];
      WrittenParts(st.l, L(), log[section], e);
      assert hist + [] == hist;
      log := log[section := log[section] + [e]];
      Grow(actionlist, st, section, e, L());
      assert During(secpos[section] + 1) == Extend(st, section, e, L());
    }

    // ---- Between the passes ---------------------------------------------------------------------

    /** dasm_checkstep: fails if a local label is pending, and forgets all local labels. */
    method CheckStep(secmatch: int) returns (st: int)
      requires status == S_OK ==> Valid()
      modifies this`status, this`lglabels, this`hist
      ensures st == status
      ensures st == S_OK ==> old(status) == S_OK && Valid() && NoLocalPending() && (secmatch >= 0 ==> section == secmatch)
      ensures st == S_OK ==> hist == old(hist) + [Reset]
      ensures st == S_OK <==> old(status) == S_OK && old(NoLocalPending()) && (secmatch >= 0 ==> section == secmatch)
    {
      if status == S_OK {
        ForgetLocals();
      }
      if status == S_OK && secmatch >= 0 && section != secmatch {
        status := S_MATCH_SEC + section;
      }
      st := status;
    }

    method ForgetLocals()
      requires Valid()
      modifies this`status, this`lglabels, this`hist
      ensures status == S_OK ==> Valid() && NoLocalPending() && hist == old(hist) + [Reset]
      ensures status == S_OK <==> old(NoLocalPending())
    {
      hide StateOk, LinksOk, Heads, Finished, Off;
      ghost var l, lg0 := L(), lglabels;
      ClearLocals();
      if status == S_OK {
        ForgetState(actionlist, State(l, log, secpos), Heads(lglabels, pclabels), lglabels, lg0, pclabels);
        hist := hist + [Reset];
      }
    }

    method ClearLocals()
      requires status == S_OK && 10 <= |lglabels|
      modifies this`status, this`lglabels
      ensures |lglabels| == old(|lglabels|)
      ensures status == S_OK <==> old(NoLocalPending())
      ensures status == S_OK ==> forall k | 0 <= k < |lglabels| ::
        if 1 <= k < 10 then lglabels[k] == 0 && old(lglabels)[k] <= 0 else lglabels[k] == old(lglabels)[k]
    {
      var i := 1;
      while i <= 9
        invariant 1 <= i <= 10 && |lglabels| == old(|lglabels|) && status == S_OK
        invariant forall k | 1 <= k < i :: lglabels[k] == 0 && old(lglabels)[k] <= 0
        invariant forall k | 0 <= k < |lglabels| && !(1 <= k < i) :: lglabels[k] == old(lglabels)[k]
      {
        if lglabels[i] > 0 {
          status := S_UNDEF_L + i;
          break;
        }
        lglabels := lglabels[i := 0];
        i := i + 1;
      }
    }

    ghost predicate NoLocalPending()
      reads this
    {
      forall k | 1 <= k < 10 && k < |lglabels| :: lglabels[k] <= 0
    }

    // ---- Pass 2 ---------------------------------------------------------------------------------

    /** The second pass came by all of the code. */
    ghost predicate Linked()
      reads this
    {
      && ProgramOk(actionlist, code) && LinkedTo(code, tgt, b, |code.es|) && code.ends == secpos
      && codesize == Final(code.es, tgt, |code.es|) && GlobalsInRange(code.es, |globals| + 10)
      && (forall pc | 0 <= pc < |pclabels| && pclabels[pc] < 0 :: SomeLabel(code.es, -pclabels[pc]))
    }

    /** Undefined globals: their chains are marked with the number of the global. */
    method MarkUndefined()
      requires LinksOk(L()) && 10 <= |lglabels|
      modifies this`b
      ensures Marked(old(L()), b, |lglabels|)
    {
      hide LinksOk, Heads, Marked;
      ghost var l := L();
      MarkedAtFirst(l);
      var idx := 10;
      while idx < |lglabels|
        invariant 10 <= idx <= |lglabels| && Marked(l, b, idx)
      {
        var n := lglabels[idx];
        HeadIs(l, lglabels, pclabels, idx);
        MarkOne(l, b, idx);
        if n > 0 {
          CollapseChain(n, -idx, chain[LG(idx)]);
        } else {
          MarkNone(l, b, idx);
        }
        idx := idx + 1;
      }
    }

    /** One action of the second pass. */
    method LinkAction(secnum: nat, p: int, pos: int, ofs: int, ghost g: nat) returns (p': int, pos': int, ofs': int, stop: bool)
      requires ProgramOk(actionlist, code) && LinkedTo(code, tgt, b, g) && Sizes(code, secofs)
      requires g < |code.es| && secnum < |code.ends| && 0 <= code.bases[secnum] <= g < code.bases[secnum + 1]
      requires !code.es[g].act.Begin? && p == code.es[g].p && pos == code.es[g].pos
      requires ofs == Start(code, secnum) + Slack(code.es, tgt, g)
      modifies this`b
      ensures LinkedTo(code, tgt, b, g + 1) && ofs' == Start(code, secnum) + Slack(code.es, tgt, g + 1)
      ensures pos' == pos + Slots(code.es[g].act) && stop == code.es[g].act.Stop?
      ensures !stop ==> p' == p + Len(code.es[g].act)
    {
      hide ProgramOk, LinkedTo, Sizes, Slack, Start, Aimed;
      ghost var e := code.es[g];
      LinkedAim(code, tgt, b, g);
      EntryFacts(actionlist, code, secnum, g);
      SlackStep(code.es, tgt, g);
      var action := actionlist[p];
      p', pos', ofs', stop := p + 1, pos, ofs, false;
      if action == REL_LG || action == REL_PC {
        if action == REL_LG {
          p' := p' + 1;
        }
        ofs' := LinkBranch(secnum, actionlist[p - 1], pos, ofs, g);
        pos' := pos + 2;
      } else if action == LABEL_LG || action == LABEL_PC {
        if action == LABEL_LG {
          p' := p' + 1;
        }
        LabelStep(actionlist, code, tgt, b, g, ofs);
        b := b[pos := b[pos] + ofs];
        pos' := pos + 1;
      } else {
        StepNothing(code, tgt, b, g);
        if action == ALIGN {
          var mask := actionlist[p'];
          AlignWord(actionlist, code, tgt, b, g, ofs);
          ofs' := ofs - (b[pos] + ofs) % (mask + 1);
          p', pos' := p' + 1, pos + 1;
        } else if action == SPACE || action == IMM_LG {
          p', pos' := p' + 1, pos + 1;
        } else if IsImm(action) || action == IMM_PC {
          pos' := pos + 1;
        } else if action == ESC {
          p' := p' + 1;
        } else if action == SECTION || action == STOP {
          stop := true;
        }
      }
    }

    /** Decide whether a branch becomes short. */
    method LinkBranch(secnum: nat, op: int, pos: int, ofs: int, ghost g: nat) returns (ofs': int)
      requires ProgramOk(actionlist, code) && LinkedTo(code, tgt, b, g) && Sizes(code, secofs)
      requires g < |code.es| && secnum < |code.ends| && 0 <= code.bases[secnum] <= g < code.bases[secnum + 1]
      requires code.es[g].act.Rel? && pos == code.es[g].pos && op == code.es[g].act.op
      requires ofs == Start(code, secnum) + Slack(code.es, tgt, g)
      modifies this`b
      ensures LinkedTo(code, tgt, b, g + 1)
      ensures ofs' == ofs - if Shrinks(code.es, tgt, g) then Saving(op) else 0
    {
      hide ProgramOk, LinkedTo, Sizes;
      BranchWords(actionlist, code, tgt, b, secnum, g);
      ofs' := ofs;
      var shrink := if op == 0xe9 then 3 else if 0x80 <= op < 0x90 then 4 else 0;
      if shrink != 0 {
        var lpos := b[pos];
        if lpos < 0 {
          shrink := 0;
        } else {
          SeenDistance(actionlist, code, tgt, b, g);
          var lofs := b[lpos];
          if lpos > pos {
            var between := SumSections(secnum, lpos / SEC, g);
            lofs := lofs + between;
          } else {
            lofs := lofs - ofs;
          }
          lofs := lofs - b[pos + 1];
          if -128 - shrink <= lofs <= 127 {
            ofs' := ofs' - shrink;
          } else {
            shrink := 0;
          }
        }
      }
      BranchStep(actionlist, code, tgt, b, g, shrink);
      b := b[pos + 1 := shrink];
    }

    /** Cumulative section sizes between the branch and a label behind it. */
    method SumSections(secnum: nat, upto: int, ghost g: nat) returns (sum: int)
      requires ProgramOk(actionlist, code) && Aimed(code.es, tgt) && Sizes(code, secofs)
      requires g < |code.es| && secnum < |code.ends| && 0 <= code.bases[secnum] <= g < code.bases[secnum + 1]
      requires tgt[g] > g && upto == code.es[tgt[g]].pos / SEC
      ensures sum == StartAt(code, code.es[tgt[g]].pos) - StartAt(code, code.es[g].pos)
    {
      hide ProgramOk, Sizes;
      LaterSection(actionlist, code, tgt, secofs, secnum, g);
      sum := 0;
      var i := secnum;
      while i < upto
        invariant secnum <= i <= upto <= |secofs| && sum == Sum(secofs, secnum, i)
      {
        sum := sum + secofs[i];
        i := i + 1;
      }
    }

    /** The actions of one dasm_put call. */
    method LinkPut(secnum: nat, start: int, ofs: int, ghost g: nat) returns (pos: int, ofs': int, ghost g': nat)
      requires ProgramOk(actionlist, code) && LinkedTo(code, tgt, b, g) && Sizes(code, secofs)
      requires g < |code.es| && secnum < |code.ends| && 0 <= code.bases[secnum] <= g < code.bases[secnum + 1]
      requires code.es[g].act.Begin? && start == code.es[g].pos
      requires ofs == Start(code, secnum) + Slack(code.es, tgt, g)
      modifies this`b
      ensures LinkedTo(code, tgt, b, g')
      ensures g < g' && AtPut(code, secnum, g', pos) && 0 <= code.bases[secnum] && g' <= |code.es|
      ensures ofs' == Start(code, secnum) + Slack(code.es, tgt, g')
    {
      hide ProgramOk, LinkedTo, Sizes, Slack;
      BasesThere(actionlist, code, secnum);
      BeginWord(actionlist, code, tgt, b, secnum, g);
      SlackStep(code.es, tgt, g);
      StepNothing(code, tgt, b, g);
      var p, stop := b[start], false;
      pos, ofs', g' := start + 1, ofs, g + 1;
      while !stop
        invariant LinkedTo(code, tgt, b, g') && g < g' <= |code.es| && 0 <= code.bases[secnum]
        invariant !stop ==> secnum < |code.ends| && code.bases[secnum] <= g' < code.bases[secnum + 1] && g' < |code.es|
        invariant !stop ==> !code.es[g'].act.Begin? && p == code.es[g'].p && pos == code.es[g'].pos
        invariant stop ==> AtPut(code, secnum, g', pos)
        invariant ofs' == Start(code, secnum) + Slack(code.es, tgt, g')
        decreases !stop, |code.es| - g'
      {
        NextEntry(actionlist, code, secnum, g');
        p, pos, ofs', stop := LinkAction(secnum, p, pos, ofs', g');
        g' := g' + 1;
      }
    }

    /** dasm_link */
    method Link() returns (st: int, size: int)
      requires status == S_OK ==> Valid() && NoLocalPending()
      modifies this`b, this`codesize, this`code, this`tgt
      ensures status != S_OK ==> st == status && size == 0
      ensures status == S_OK ==> (st != S_OK <==> exists pc :: 0 <= pc < |pclabels| && pclabels[pc] > 0)
      ensures st == S_OK ==> Linked() && size == codesize && code == Whole(log, secpos)
      ensures st == S_OK ==> Aimed(code.es, tgt) && forall j | 0 <= j < |code.es| :: BoundAs(hist, code.es, tgt, j)
    {
      size := 0;
      if status != S_OK {
        return status, 0;
      }
      hide StateOk, LinksOk, Heads, ProgramOk, LinkedTo, BoundAs, Whole;
      var pc := 0;
      while pc < |pclabels|
        invariant pc <= |pclabels| && forall k | 0 <= k < pc :: pclabels[k] <= 0
      {
        if pclabels[pc] > 0 {
          return S_UNDEF_PC + pc, 0;
        }
        pc := pc + 1;
      }
      size := LinkAll();
      st := S_OK;
    }

    /** The labels are all right: link the sections. */
    method LinkAll() returns (size: int)
      requires Valid() && NoLocalPending() && forall k | 0 <= k < |pclabels| :: pclabels[k] <= 0
      modifies this`b, this`codesize, this`code, this`tgt
      ensures Linked() && size == codesize && code == Whole(log, secpos)
      ensures Aimed(code.es, tgt) && forall j | 0 <= j < |code.es| :: BoundAs(hist, code.es, tgt, j)
    {
      hide StateOk, LinksOk, Heads, ProgramOk, LinkedTo, Sizes, Slack, Start, Off, Whole, BoundAs, Targets, GlobalsInRange, SomeLabel, Finished, Aimed;
      Prepare();
      size := LinkSections();
      codesize := size;
    }

    /** Marks the chains of undefined globals. Each slot names its label then. */
    method Prepare()
      requires Valid() && NoLocalPending() && forall k | 0 <= k < |pclabels| :: pclabels[k] <= 0
      modifies this`b, this`code, this`tgt
      ensures ProgramOk(actionlist, code) && LinkedTo(code, tgt, b, 0) && Sizes(code, secofs) && code.ends == secpos
      ensures GlobalsInRange(code.es, |globals| + 10) && forall pc | 0 <= pc < |pclabels| && pclabels[pc] < 0 :: SomeLabel(code.es, -pclabels[pc])
      ensures code == Whole(log, secpos) && Aimed(code.es, tgt) && forall j | 0 <= j < |code.es| :: BoundAs(hist, code.es, tgt, j)
    {
      hide StateOk, LinksOk, Heads, ProgramOk, LinkedTo, Sizes, Marked, Slack, Start, Off, Whole, BoundAs, Targets, GlobalsInRange, SomeLabel, Finished, Aimed;
      ghost var state := State(L(), log, secpos);
      StateParts(actionlist, state);
      MarkUndefined();
      LinkReady(actionlist, state, b, lglabels, pclabels, secofs);
      code := Whole(log, secpos);
      tgt := Targets(code.es, b);
      WholeFields(log, secpos);
    }

    method LinkSections() returns (ofs: int)
      requires ProgramOk(actionlist, code) && LinkedTo(code, tgt, b, 0) && Sizes(code, secofs) && code.ends == secpos
      modifies this`b
      ensures LinkedTo(code, tgt, b, |code.es|) && Aimed(code.es, tgt) && ofs == Final(code.es, tgt, |code.es|)
    {
      hide ProgramOk, LinkedTo, Sizes, Slack, Start, Off;
      var secnum := 0;
      ofs := 0;
      ghost var g := 0;
      BasesThere(actionlist, code, 0);
      LinkStarts(code, tgt, b);
      while secnum < |secpos|
        invariant secnum <= |secpos| && |code.bases| == |secpos| + 1 && 0 <= code.bases[secnum] == g <= |code.es|
        invariant LinkedTo(code, tgt, b, g) && Aimed(code.es, tgt)
        invariant ofs == Start(code, secnum) + Slack(code.es, tgt, g)
      {
        var pos, lastpos := secnum * SEC, secpos[secnum];
        BasesThere(actionlist, code, secnum);
        SectionBegins(actionlist, code, secnum);
        while pos != lastpos
          invariant 0 <= code.bases[secnum] <= |code.es| && g <= |code.es| && AtPut(code, secnum, g, pos)
          invariant LinkedTo(code, tgt, b, g) && Aimed(code.es, tgt)
          invariant ofs == Start(code, secnum) + Slack(code.es, tgt, g)
          decreases |code.es| - g
        {
          InMiddle(actionlist, code, secnum, g, pos);
          pos, ofs, g := LinkPut(secnum, pos, ofs, g);
        }
        AtItsEnd(actionlist, code, secnum, g, pos);
        NextStart(code, secofs, secnum);
        ofs := ofs + secofs[secnum];
        secnum := secnum + 1;
      }
      BasesThere(actionlist, code, |secpos|);
      StartOfEnd(actionlist, code);
    }

    // ---- Pass 3 ---------------------------------------------------------------------------------

    /** dasmw and dasmd */
    method PutLittle(buffer: array<int>, cp: int, n: int, size: nat)
      requires 0 <= cp && cp + size <= buffer.Length && (size == 2 || size == 4)
      modifies buffer
      ensures SameFront(old(buffer[..]), buffer[..], cp)
      ensures if size == 4 then DwordAt(buffer[..], cp, n) else WordAt(buffer[..], cp, n)
    {
      buffer[cp] := n % 256;
      buffer[cp + 1] := n / 256 % 256;
      if size == 4 {
        buffer[cp + 2] := n / 65536 % 256;
        buffer[cp + 3] := n / 16777216 % 256;
      }
    }

    /** Fill with `v` up to before hi. */
    method Fill(buffer: array<int>, cp: int, count: nat, v: int)
      requires 0 <= cp && cp + count <= buffer.Length
      modifies buffer
      ensures SameFront(old(buffer[..]), buffer[..], cp) && Filled(buffer[..], cp, cp + count, v)
    {
      var n := count;
      var i := cp;
      while n > 0
        invariant 0 <= n <= count && i + n == cp + count
        invariant SameFront(old(buffer[..]), buffer[..], cp) && Filled(buffer[..], cp, i, v)
      {
        buffer[i] := v % 256;
        i := i + 1;
        n := n - 1;
      }
    }

    /** Pad with nops until the offset is a multiple of mask + 1. */
    method Pad(buffer: array<int>, cp: int, mask: nat, ghost end: int) returns (cp': int)
      requires 0 <= cp <= end <= buffer.Length && end - cp <= mask && end % (mask + 1) == 0
      modifies buffer
      ensures cp' == end && SameFront(old(buffer[..]), buffer[..], cp) && Filled(buffer[..], cp, end, 0x90)
    {
      cp' := cp;
      while cp' % (mask + 1) != 0
        invariant cp <= cp' <= end && SameFront(old(buffer[..]), buffer[..], cp) && Filled(buffer[..], cp, cp', 0x90)
        decreases end - cp'
      {
        buffer[cp'] := 0x90;
        cp' := cp' + 1;
      }
      OneMultiple(cp', end, mask + 1);
    }

    /** One action of the third pass. */
    method EncodeAction(buffer: array<int>, base: int, p: int, pos: int, cp: int, ghost gl: seq<int>, ghost g: nat)
      returns (p': int, pos': int, cp': int, stop: bool)
      requires ProgramOk(actionlist, code) && LinkedTo(code, tgt, b, |code.es|) && GlobalsInRange(code.es, |globals| + 10)
      requires g < |code.es| && !code.es[g].act.Begin? && p == code.es[g].p && pos == code.es[g].pos
      requires cp == Final(code.es, tgt, g) && Final(code.es, tgt, |code.es|) <= buffer.Length
      requires AllEmitted(buffer[..], code.es, tgt, gl, base, g) && GlobalsOk(globals, gl, code.es, tgt, base, g)
      modifies buffer, this`globals
      ensures AllEmitted(buffer[..], code.es, tgt, gl, base, g + 1) && GlobalsOk(globals, gl, code.es, tgt, base, g + 1)
      ensures pos' == pos + Slots(code.es[g].act) && cp' == Final(code.es, tgt, g + 1) && stop == code.es[g].act.Stop?
      ensures !stop ==> p' == p + Len(code.es[g].act)
    {
      ghost var es, e := code.es, code.es[g];
      EntryThere(actionlist, code, tgt, b, g);
      hide ProgramOk, LinkedTo, AllEmitted, GlobalsInRange, GlobalsOk, Final, Slack, Distance, Shrinks;
      var action := actionlist[p];
      p', pos', cp', stop := p + 1, pos, cp, false;
      GlobalsSame(globals, gl, es, tgt, base, g);
      if action == REL_LG || action == REL_PC {
        if action == REL_LG {
          p' := p' + 1;
        }
        cp' := EncodeBranch(buffer, base, pos, cp, gl, g);
        pos' := pos + 2;
      } else if IsImm(action) {
        cp' := EncodeImm(buffer, base, action, b[pos], cp, gl, g);
        pos' := pos + 1;
      } else if action == SPACE {
        cp' := EncodeSpace(buffer, base, b[pos], actionlist[p'], cp, gl, g);
        p', pos' := p' + 1, pos + 1;
      } else if action == ALIGN {
        cp' := EncodeAlign(buffer, base, actionlist[p'], cp, gl, g);
        p', pos' := p' + 1, pos + 1;
      } else if action == IMM_LG || action == IMM_PC {
        if action == IMM_LG {
          p' := p' + 1;
        }
        cp' := EncodeAddress(buffer, base, pos, cp, gl, g);
        pos' := pos + 1;
      } else if action == LABEL_LG || action == LABEL_PC {
        EncodeLabel(buffer, base, p, pos, gl, g);
        p', pos' := if action == LABEL_LG then p' + 1 else p', pos + 1;
      } else if action == ESC {
        cp' := EncodeByte(buffer, base, actionlist[p'], cp, gl, g);
        p' := p' + 1;
      } else if action == SECTION || action == STOP {
        stop := true;
        EmitNothing(buffer[..], es, tgt, gl, base, g);
      } else {
        cp' := EncodeByte(buffer, base, action, cp, gl, g);
      }
    }

    /** A label: globals get their addresses. */
    method EncodeLabel(buffer: array<int>, base: int, p: int, pos: int, ghost gl: seq<int>, ghost g: nat)
      requires ProgramOk(actionlist, code) && LinkedTo(code, tgt, b, |code.es|) && GlobalsInRange(code.es, |globals| + 10)
      requires g < |code.es| && code.es[g].act.Label? && p == code.es[g].p && pos == code.es[g].pos && p < |actionlist|
      requires actionlist[p] == LABEL_LG || actionlist[p] == LABEL_PC
      requires AllEmitted(buffer[..], code.es, tgt, gl, base, g) && GlobalsOk(globals, gl, code.es, tgt, base, g)
      modifies this`globals
      ensures AllEmitted(buffer[..], code.es, tgt, gl, base, g + 1) && GlobalsOk(globals, gl, code.es, tgt, base, g + 1)
    {
      hide ProgramOk, LinkedTo, AllEmitted, GlobalsInRange, GlobalsOk, Final, Slack, Distance, Shrinks;
      ghost var es := code.es;
      EntryThere(actionlist, code, tgt, b, g);
      GlobalsSame(globals, gl, es, tgt, base, g);
      EmitNothing(buffer[..], es, tgt, gl, base, g);
      if actionlist[p] == LABEL_LG {
        var idx := actionlist[p + 1];
        if idx >= 10 {
          GlobalsCount(globals, gl, es, tgt, base, g);
          LabelWordIs(actionlist, code, tgt, b, g, |globals| + 10);
          GlobalSet(globals, gl, es, tgt, base, g, base + b[pos]);
          globals := globals[idx - 10 := base + b[pos]];
        }
      }
    }

    method EncodeByte(buffer: array<int>, base: int, byte: int, cp: int, ghost gl: seq<int>, ghost g: nat) returns (cp': int)
      requires EmitReady(buffer, base, cp, gl, g) && OneByte(code.es[g].act) && byte == code.es[g].act.byte
      modifies buffer
      ensures AllEmitted(buffer[..], code.es, tgt, gl, base, g + 1) && cp' == Final(code.es, tgt, g + 1)
    {
      hide AllEmitted, Final, Slack, Distance, Shrinks;
      ghost var was := buffer[..];
      RoomFor(code.es, tgt, g);
      buffer[cp] := byte % 256;
      cp' := cp + 1;
      ByteNow(buffer[..], code.es, tgt, gl, base, g, cp);
      EmitPlain(was, buffer[..], code.es, tgt, gl, base, g);
    }

    method EncodeSpace(buffer: array<int>, base: int, n: nat, fill: int, cp: int, ghost gl: seq<int>, ghost g: nat) returns (cp': int)
      requires EmitReady(buffer, base, cp, gl, g) && code.es[g].act == Space(n, fill)
      modifies buffer
      ensures AllEmitted(buffer[..], code.es, tgt, gl, base, g + 1) && cp' == Final(code.es, tgt, g + 1)
    {
      hide AllEmitted, Final, Slack, Distance, Shrinks;
      ghost var was := buffer[..];
      RoomFor(code.es, tgt, g);
      Fill(buffer, cp, n, fill);
      cp' := cp + n;
      EmitPlain(was, buffer[..], code.es, tgt, gl, base, g);
    }

    method EncodeAlign(buffer: array<int>, base: int, mask: nat, cp: int, ghost gl: seq<int>, ghost g: nat) returns (cp': int)
      requires EmitReady(buffer, base, cp, gl, g) && code.es[g].act == Align(mask)
      modifies buffer
      ensures AllEmitted(buffer[..], code.es, tgt, gl, base, g + 1) && cp' == Final(code.es, tgt, g + 1)
    {
      hide AllEmitted, Final, Slack, Distance, Shrinks;
      ghost var was := buffer[..];
      RoomFor(code.es, tgt, g);
      AlignStep(code.es, tgt, g);
      cp' := Pad(buffer, cp, mask, Final(code.es, tgt, g + 1));
      EmitPlain(was, buffer[..], code.es, tgt, gl, base, g);
    }

    method EncodeAddress(buffer: array<int>, base: int, pos: int, cp: int, ghost gl: seq<int>, ghost g: nat) returns (cp': int)
      requires EmitReady(buffer, base, cp, gl, g) && code.es[g].act.ImmLabel? && pos == code.es[g].pos
      requires ProgramOk(actionlist, code) && LinkedTo(code, tgt, b, |code.es|) && GlobalsInRange(code.es, |globals| + 10)
      requires GlobalsOk(globals, gl, code.es, tgt, base, g)
      modifies buffer
      ensures AllEmitted(buffer[..], code.es, tgt, gl, base, g + 1) && cp' == Final(code.es, tgt, g + 1)
    {
      hide AllEmitted, Final, Slack, Distance, Shrinks, ProgramOk, LinkedTo, GlobalsInRange, GlobalsOk, Address;
      ghost var was := buffer[..];
      RoomFor(code.es, tgt, g);
      WhereTo(actionlist, code, tgt, b, g, globals, gl, base);
      var n := b[pos];
      var v := if n < 0 then globals[-n - 10] else b[n] + base;
      PutLittle(buffer, cp, v, 4);
      cp' := cp + 4;
      EmitPlain(was, buffer[..], code.es, tgt, gl, base, g);
    }

    method EncodeImm(buffer: array<int>, base: int, action: int, n: int, cp: int, ghost gl: seq<int>, ghost g: nat) returns (cp': int)
      requires EmitReady(buffer, base, cp, gl, g) && code.es[g].act == Imm(action, n) && IsImm(action)
      modifies buffer
      ensures AllEmitted(buffer[..], code.es, tgt, gl, base, g + 1) && cp' == Final(code.es, tgt, g + 1)
    {
      ghost var was, es := buffer[..], code.es;
      RoomFor(es, tgt, g);
      cp' := cp;
      if (action == IMM_DB || action == IMM_WB) && Short(n) {
        OpcodeBytes(buffer[..], es, tgt, gl, base, g);
        hide AllEmitted, Final, Slack, Distance, Shrinks;
        buffer[cp - 2] := (buffer[cp - 2] + 2) % 256;
        buffer[cp] := n % 256;
        cp' := cp + 1;
        EmitPatch(was, buffer[..], es, tgt, gl, base, g);
      } else {
        hide AllEmitted, Final, Slack, Distance, Shrinks;
        if action == IMM_S || action == IMM_B {
          buffer[cp] := n % 256;
          cp' := cp + 1;
        } else if action == IMM_DB || action == IMM_D {
          PutLittle(buffer, cp, n, 4);
          cp' := cp + 4;
        } else {
          PutLittle(buffer, cp, n, 2);
          cp' := cp + 2;
        }
        EmitPlain(was, buffer[..], es, tgt, gl, base, g);
      }
    }

    /** Branches, short or long. */
    method EncodeBranch(buffer: array<int>, base: int, pos: int, cp: int, ghost gl: seq<int>, ghost g: nat) returns (cp': int)
      requires EmitReady(buffer, base, cp, gl, g) && code.es[g].act.Rel? && pos == code.es[g].pos
      requires ProgramOk(actionlist, code) && LinkedTo(code, tgt, b, |code.es|) && GlobalsInRange(code.es, |globals| + 10)
      requires GlobalsOk(globals, gl, code.es, tgt, base, g)
      modifies buffer
      ensures AllEmitted(buffer[..], code.es, tgt, gl, base, g + 1) && cp' == Final(code.es, tgt, g + 1)
    {
      hide ProgramOk, LinkedTo, GlobalsInRange, GlobalsOk, Address, AllEmitted, Final, Slack, Distance, Shrinks;
      RoomFor(code.es, tgt, g);
      WhereTo(actionlist, code, tgt, b, g, globals, gl, base);
      ShrinkWord(actionlist, code, tgt, b, g);
      var n := b[pos];
      var shrink := b[pos + 1];
      if n < 0 {
        cp' := LongBranch(buffer, base, globals[-n - 10] - (base + cp + 4), cp, gl, g);
      } else {
        n := b[n] - (cp + 4 - shrink);
        if shrink == 0 {
          cp' := LongBranch(buffer, base, n, cp, gl, g);
        } else if shrink == 4 {
          cp' := ShortCondition(buffer, base, n, cp, gl, g);
        } else {
          cp' := ShortJump(buffer, base, n, cp, gl, g);
        }
      }
    }

    method LongBranch(buffer: array<int>, base: int, n: int, cp: int, ghost gl: seq<int>, ghost g: nat) returns (cp': int)
      requires EmitReady(buffer, base, cp, gl, g) && code.es[g].act.Rel? && !Shrinks(code.es, tgt, g)
      requires n == Address(code.es, tgt, gl, base, g) - (base + cp + 4)
      modifies buffer
      ensures AllEmitted(buffer[..], code.es, tgt, gl, base, g + 1) && cp' == Final(code.es, tgt, g + 1)
    {
      hide AllEmitted, Final, Slack, Distance, Shrinks, Address;
      ghost var was := buffer[..];
      RoomFor(code.es, tgt, g);
      PutLittle(buffer, cp, n, 4);
      cp' := cp + 4;
      EmitPlain(was, buffer[..], code.es, tgt, gl, base, g);
    }

    /** A short jump overwrites the opcode byte of the long one. */
    method ShortJump(buffer: array<int>, base: int, n: int, cp: int, ghost gl: seq<int>, ghost g: nat) returns (cp': int)
      requires EmitReady(buffer, base, cp, gl, g) && ShrunkBy(code.es, tgt, g, 3)
      requires n == Address(code.es, tgt, gl, base, g) - (base + cp + 1)
      modifies buffer
      ensures AllEmitted(buffer[..], code.es, tgt, gl, base, g + 1) && cp' == Final(code.es, tgt, g + 1)
    {
      hide AllEmitted, AllPlaced, Aimed, Final, Slack, Distance, Shrinks, Address, LitNow, Gone;
      ghost var was, es := buffer[..], code.es;
      RoomFor(es, tgt, g);
      OpcodeBytes(buffer[..], es, tgt, gl, base, g);
      buffer[cp - 1] := 0xeb;
      buffer[cp] := n % 256;
      cp' := cp + 1;
      EmitPatch(was, buffer[..], es, tgt, gl, base, g);
    }

    /** A short conditional branch overwrites both opcode bytes of the long one. */
    method ShortCondition(buffer: array<int>, base: int, n: int, cp: int, ghost gl: seq<int>, ghost g: nat) returns (cp': int)
      requires EmitReady(buffer, base, cp, gl, g) && ShrunkBy(code.es, tgt, g, 4)
      requires n == Address(code.es, tgt, gl, base, g) - (base + cp)
      modifies buffer
      ensures AllEmitted(buffer[..], code.es, tgt, gl, base, g + 1) && cp' == Final(code.es, tgt, g + 1)
    {
      hide AllEmitted, AllPlaced, Aimed, Final, Slack, Distance, Shrinks, Address, LitNow, Gone;
      ghost var was, es := buffer[..], code.es;
      RoomFor(es, tgt, g);
      OpcodeBytes(buffer[..], es, tgt, gl, base, g);
      cp' := cp - 1;
      buffer[cp' - 1] := (buffer[cp'] - 0x10) % 256;
      buffer[cp'] := n % 256;
      cp' := cp' + 1;
      EmitPatch(was, buffer[..], es, tgt, gl, base, g);
    }

    ghost predicate EmitReady(buffer: array<int>, base: int, cp: int, gl: seq<int>, g: nat)
      reads this, buffer
    {
      && Aimed(code.es, tgt) && g < |code.es| && AllPlaced(code.es) && AllEmitted(buffer[..], code.es, tgt, gl, base, g)
      && cp == Final(code.es, tgt, g) && Final(code.es, tgt, |code.es|) <= buffer.Length
    }

    /** The actions of one dasm_put call. */
    method EncodePut(buffer: array<int>, base: int, secnum: nat, start: int, cp: int, ghost gl: seq<int>, ghost g: nat)
      returns (pos: int, cp': int, ghost g': nat)
      requires Linked() && g < |code.es| && cp == Final(code.es, tgt, g) && Final(code.es, tgt, |code.es|) <= buffer.Length && |globals| == |gl|
      requires secnum < |code.ends| && 0 <= code.bases[secnum] <= g < code.bases[secnum + 1]
      requires code.es[g].act.Begin? && start == code.es[g].pos
      requires AllEmitted(buffer[..], code.es, tgt, gl, base, g) && GlobalsOk(globals, gl, code.es, tgt, base, g)
      modifies buffer, this`globals
      ensures g < g' && AtPut(code, secnum, g', pos) && 0 <= code.bases[secnum] && g' <= |code.es|
      ensures AllEmitted(buffer[..], code.es, tgt, gl, base, g') && GlobalsOk(globals, gl, code.es, tgt, base, g')
      ensures cp' == Final(code.es, tgt, g')
    {
      hide ProgramOk, LinkedTo, AllEmitted, GlobalsOk, GlobalsInRange, Final;
      BasesThere(actionlist, code, secnum);
      EntryThere(actionlist, code, tgt, b, g);
      EmitNothing(buffer[..], code.es, tgt, gl, base, g);
      GlobalsSame(globals, gl, code.es, tgt, base, g);
      FirstAction(actionlist, code, secnum, g);
      var p, stop := b[start], false;
      pos, cp', g' := start + 1, cp, g + 1;
      while !stop
        invariant g < g' <= |code.es| && 0 <= code.bases[secnum] && |globals| == |gl|
        invariant AllEmitted(buffer[..], code.es, tgt, gl, base, g') && GlobalsOk(globals, gl, code.es, tgt, base, g')
        invariant !stop ==> code.bases[secnum] <= g' < code.bases[secnum + 1] && g' < |code.es|
        invariant !stop ==> !code.es[g'].act.Begin? && p == code.es[g'].p && pos == code.es[g'].pos
        invariant stop ==> AtPut(code, secnum, g', pos)
        invariant cp' == Final(code.es, tgt, g')
        decreases !stop, |code.es| - g'
      {
        NextEntry(actionlist, code, secnum, g');
        p, pos, cp', stop := EncodeAction(buffer, base, p, pos, cp', gl, g');
        g' := g' + 1;
        GlobalsCount(globals, gl, code.es, tgt, base, g');
      }
    }

    /** dasm_encode: never a phase error, and every entry is where the second pass put it. */
    method Encode(buffer: array<int>, base: int) returns (st: int)
      requires Linked() && codesize <= buffer.Length
      modifies buffer, this`globals
      ensures st == S_OK
      ensures AllEmitted(buffer[..], code.es, tgt, old(globals), base, |code.es|)
      ensures GlobalsOk(globals, old(globals), code.es, tgt, base, |code.es|)
    {
      hide ProgramOk, LinkedTo, AllEmitted, GlobalsOk, GlobalsInRange, Final;
      ghost var gl, g := globals, 0;
      var cp, secnum := 0, 0;
      EmitStart(buffer[..], code, tgt, b, gl, base);
      BasesThere(actionlist, code, 0);
      while secnum < |secpos|
        invariant secnum <= |secpos| && |code.bases| == |secpos| + 1 && 0 <= code.bases[secnum] == g <= |code.es|
        invariant AllEmitted(buffer[..], code.es, tgt, gl, base, g) && GlobalsOk(globals, gl, code.es, tgt, base, g)
        invariant Linked() && |globals| == |gl| && Aimed(code.es, tgt) && cp == Final(code.es, tgt, g)
      {
        var pos, last := secnum * SEC, secpos[secnum];
        BasesThere(actionlist, code, secnum);
        SectionBegins(actionlist, code, secnum);
        while pos != last
          invariant 0 <= code.bases[secnum] <= |code.es| && g <= |code.es| && AtPut(code, secnum, g, pos)
          invariant AllEmitted(buffer[..], code.es, tgt, gl, base, g) && GlobalsOk(globals, gl, code.es, tgt, base, g)
          invariant Linked() && |globals| == |gl| && Aimed(code.es, tgt) && cp == Final(code.es, tgt, g)
          decreases |code.es| - g
        {
          InMiddle(actionlist, code, secnum, g, pos);
          pos, cp, g := EncodePut(buffer, base, secnum, pos, cp, gl, g);
          GlobalsCount(globals, gl, code.es, tgt, base, g);
        }
        AtItsEnd(actionlist, code, secnum, g, pos);
        secnum := secnum + 1;
      }
      BasesThere(actionlist, code, |secpos|);
      if codesize != cp {
        return S_PHASE;
      }
      return S_OK;
    }

    /** dasm_getpclabel */
    method GetPcLabel(pc: nat) returns (ofs: int)
      requires Linked()
      ensures pc < |pclabels| && pclabels[pc] < 0 ==> LabelOfs(code.es, tgt, -pclabels[pc], ofs)
      ensures pc < |pclabels| && pclabels[pc] > 0 ==> ofs == -1
      ensures !(pc < |pclabels| && pclabels[pc] != 0) ==> ofs == -2
    {
      if pc < |pclabels| {
        var pos := pclabels[pc];
        if pos < 0 {
          assert SomeLabel(code.es, -pos);
          ghost var t := WhichLabel(code.es, -pos);
          assert SlotAt(code, tgt, b, t, |code.es|);
          return b[-pos];
        }
        if pos > 0 {
          return -1;
        }
      }
      return -2;
    }
  }

  /** The range checks of immediates. */
  predicate ImmFits(code: int, n: int) {
    if code == IMM_S then Short(n)
    else if code == IMM_B then 0 <= n < 256
    else if code == IMM_W then 0 <= n < 65536
    else if code == IMM_WB then Short(n) || 0 <= n < 65536
    else true
  }

  /** What is known before an action. */
  lemma NextAction(al: seq<int>, st: State, s: nat, p: int, args: seq<int>, a: nat, pos: int, run: nat)
    requires s < |st.log| && |st.log| == |st.ends| && st.ends[s] == pos
    requires WellFormed(al, p, args, a, run) && pos + SlotsFrom(al, p, args, a, run) + 1 < (s + 1) * SEC
    requires Awaits(st.log[s], p) && PlainRun(al, st.log[s], run, p)
    requires StateOk(al, st)
    ensures Legal(al, p, args, a) && s * SEC < pos
    ensures var e := Entry(p, pos, ActionAt(al, p, args, a));
      && AtAction(al, e) && Next(st.log[s], s * SEC, e) && Placed(st.log[s] + [e], |st.log[s]|)
      && pos + Slots(e.act) + 1 < (s + 1) * SEC
  {
    hide StateOk, LinksOk;
    StateParts(al, st);
    var e := Entry(p, pos, ActionAt(al, p, args, a));
    ActionIsThere(al, p, args, a, pos);
    assert SectionOk(al, st, s);
    LastEntry(al, st, s, p);
    RunPlaces(al, st.log[s], run, p, e);
    hide SectionOk, AtAction, PlainRun;
    assert Slots(e.act) <= SlotsFrom(al, p, args, a, run);
  }

  lemma LastEntry(al: seq<int>, st: State, s: nat, p: int)
    requires s < |st.log| && |st.log| == |st.ends| && SectionOk(al, st, s) && Awaits(st.log[s], p)
    ensures st.ends[s] == EndPos(st.log[s], s * SEC) && s * SEC < st.ends[s]
    ensures forall e: Entry | e.p == p && e.pos == st.ends[s] && !e.act.Begin? :: Next(st.log[s], s * SEC, e)
  {
    var k := |st.log[s]| - 1;
    PosInside(al, st.log[s], s * SEC, k);
    assert st.log[s][0].act.Begin? && st.log[s][0].pos == s * SEC;
    if k > 0 { PosInside(al, st.log[s], s * SEC, 0); PosOrder(al, st.log[s], s * SEC, 0, k); }
  }

  lemma {:induction false} PosOrder(al: seq<int>, es: seq<Entry>, lo: int, j: nat, k: nat)
    requires Flow(al, es, lo) && j < k < |es|
    ensures es[j].pos + Slots(es[j].act) <= es[k].pos
    decreases k
  {
    assert Follows(es[k - 1], es[k]);
    if j < k - 1 { PosOrder(al, es, lo, j, k - 1); }
  }

  /** The entries a dasm_put call adds. */
  function Stored(al: seq<int>, start: nat, args: seq<int>, pos: int): seq<Entry>
    requires WellFormed(al, start, args, 0, 0)
  {
    [Entry(start, pos, Begin(start))] + Parsed(al, start, args, 0, pos + 1, 0)
  }

  lemma StoredParts(al: seq<int>, start: nat, args: seq<int>, pos: int, es: seq<Entry>, hist: seq<Event>)
    requires WellFormed(al, start, args, 0, 0)
    ensures (es + [Entry(start, pos, Begin(start))]) + Parsed(al, start, args, 0, pos + 1, 0) == es + Stored(al, start, args, pos)
    ensures Events(Stored(al, start, args, pos)) == Events(Parsed(al, start, args, 0, pos + 1, 0))
  {
    var e, r := Entry(start, pos, Begin(start)), Parsed(al, start, args, 0, pos + 1, 0);
    assert ([e] + r)[1..] == r;
  }

  lemma AfterBegin(al: seq<int>, es: seq<Entry>, e: Entry)
    requires e.act.Begin?
    ensures Awaits(es + [e], e.act.start) && PlainRun(al, es + [e], 0, e.act.start)
    ensures Off(es + [e], |es| + 1) == Off(es, |es|)
  {
    OffEnd(es, e);
  }

  /** One action, and what is left behind it. */
  lemma OneStep(al: seq<int>, p: int, args: seq<int>, a: nat, pos: int, run: nat, es: seq<Entry>, hist: seq<Event>) returns (e: Entry)
    requires WellFormed(al, p, args, a, run) && PlainRun(al, es, run, p)
    ensures Legal(al, p, args, a) && e == Entry(p, pos, ActionAt(al, p, args, a)) && p < |al|
    ensures e.act.Stop? ==> es + Parsed(al, p, args, a, pos, run) == es + [e]
    ensures e.act.Stop? ==> hist + Events(Parsed(al, p, args, a, pos, run)) == hist + EventsOf(e)
    ensures e.act.Stop? ==> Finished(es + [e]) && (al[p] == SECTION ==> p + 1 < |al| && al[p + 1] >= 0)
    ensures var p', a', pos', run' := p + Len(e.act), a + Args(e.act), pos + Slots(e.act), RunAfter(e.act, run);
      !e.act.Stop? ==>
        && WellFormed(al, p', args, a', run') && PlainRun(al, es + [e], run', p') && Awaits(es + [e], p')
        && pos' + SlotsFrom(al, p', args, a', run') == pos + SlotsFrom(al, p, args, a, run)
        && es + Parsed(al, p, args, a, pos, run) == (es + [e]) + Parsed(al, p', args, a', pos', run')
        && hist + Events(Parsed(al, p, args, a, pos, run)) == (hist + EventsOf(e)) + Events(Parsed(al, p', args, a', pos', run'))
  {
    hide AtAction, PlainRun, NeedsRun, EndsIn, Events, Parsed, SlotsFrom;
    e := Entry(p, pos, ActionAt(al, p, args, a));
    ActionIsThere(al, p, args, a, pos);
    RunMore(al, es, run, p, e);
    ParsedStep(al, p, args, a, pos, run);
    SlotsStep(al, p, args, a, run);
    if !e.act.Stop? {
      EventsStep(e, Parsed(al, p + Len(e.act), args, a + Args(e.act), pos + Slots(e.act), RunAfter(e.act, run)));
    } else {
      EventsStep(e, []);
      assert Events([]) == [] by { NoEvents(); }
      assert [e] + [] == [e];
    }
  }

  lemma ParsedStep(al: seq<int>, p: int, args: seq<int>, a: nat, pos: int, run: nat)
    requires WellFormed(al, p, args, a, run)
    ensures Legal(al, p, args, a)
    ensures var e := Entry(p, pos, ActionAt(al, p, args, a));
      if e.act.Stop? then Parsed(al, p, args, a, pos, run) == [e]
      else && WellFormed(al, p + Len(e.act), args, a + Args(e.act), RunAfter(e.act, run))
           && Parsed(al, p, args, a, pos, run)
              == [e] + Parsed(al, p + Len(e.act), args, a + Args(e.act), pos + Slots(e.act), RunAfter(e.act, run))
  {}

  lemma SlotsStep(al: seq<int>, p: int, args: seq<int>, a: nat, run: nat)
    requires WellFormed(al, p, args, a, run)
    ensures Legal(al, p, args, a)
    ensures var act := ActionAt(al, p, args, a);
      !act.Stop? ==>
        && WellFormed(al, p + Len(act), args, a + Args(act), RunAfter(act, run))
        && SlotsFrom(al, p, args, a, run) == Slots(act) + SlotsFrom(al, p + Len(act), args, a + Args(act), RunAfter(act, run))
  {}

  lemma EventsStep(e: Entry, r: seq<Entry>)
    ensures Events([e] + r) == EventsOf(e) + Events(r)
  {
    assert ([e] + r)[1..] == r;
  }

  lemma NoEvents()
    ensures Events([]) == []
  {}

  lemma SectionEnd(al: seq<int>, st: State, s: nat, e: Entry)
    requires s < |st.log| && StateOk(al, st) && Finished(st.log[s]) && e.act.Begin? && s < |st.ends| && e.pos == st.ends[s]
    ensures |st.log| == |st.ends| && s * SEC <= e.pos && Next(st.log[s], s * SEC, e) && AtAction(al, e)
    ensures Placed(st.log[s] + [e], |st.log[s]|)
  {
    StateParts(al, st);
    assert SectionOk(al, st, s);
    hide StateOk, LinksOk;
    if st.log[s] != [] { PosInside(al, st.log[s], s * SEC, |st.log[s]| - 1); }
  }

  lemma ForgetState(al: seq<int>, st: State, head: map<Id, int>, lg: seq<int>, lg0: seq<int>, pc: seq<int>)
    requires |lg| == |lg0| && head == Heads(lg, pc) && st.l.head == Heads(lg0, pc)
    requires forall k | 0 <= k < |lg| :: if 1 <= k < 10 then lg[k] == 0 && lg0[k] <= 0 else lg[k] == lg0[k]
    requires StateOk(al, st)
    ensures StateOk(al, st.(l := st.l.(head := head, hist := st.l.hist + [Reset])))
  {
    var st' := st.(l := st.l.(head := head, hist := st.l.hist + [Reset]));
    StateParts(al, st);
    hide StateOk, LinksOk;
    Forget(st.l, head);
    forall s | 0 <= s < |st.log| ensures SectionOk(al, st', s) {
      assert SectionOk(al, st, s);
      SameSection(al, st, st', s);
    }
    forall s, k | 0 <= s < |st.log| && 0 <= k < |st.log[s]| ensures Happened(st'.l.hist, st.log[s][k]) {
      assert Happened(st.l.hist, st.log[s][k]);
      HappenedMore(st.l.hist, [Reset], st.log[s][k]);
    }
    forall i | 0 <= i < |st'.l.hist| ensures Defined(st.log, st'.l.hist[i]) {
      if i < |st.l.hist| { assert Defined(st.log, st.l.hist[i]); }
    }
    hide SectionOk, Happened, Defined;
    StateWhole(al, st');
  }

  lemma SameSection(al: seq<int>, st: State, st': State, s: nat)
    requires s < |st.log| && s < |st.ends| && SectionOk(al, st, s)
    requires st'.log == st.log && st'.ends == st.ends && st'.l.b == st.l.b && st'.l.hist == st.l.hist + [Reset]
    ensures SectionOk(al, st', s)
  {
    hide Flow, AllPlaced;
    forall k | 0 <= k < |st.log[s]| ensures SlotOk(st'.l, st.log[s], k) {
      assert SlotOk(st.l, st.log[s], k);
      forall q, v | Word(st.l, q, v) ensures Word(st'.l, q, v) {}
    }
  }

  lemma MarkedAtFirst(l: Links)
    ensures Marked(l, l.b, 10)
  {}

  lemma HeadIs(l: Links, lg: seq<int>, pc: seq<int>, idx: nat)
    requires l.head == Heads(lg, pc) && idx < |lg| && LinksOk(l)
    ensures LG(idx) in l.head && LG(idx) in l.chain && l.head[LG(idx)] == lg[idx]
    ensures lg[idx] <= 0 ==> l.chain[LG(idx)] == []
  {
    assert HeadOk(l, LG(idx));
    hide LinksOk;
  }

  lemma EntryFacts(al: seq<int>, c: Program, s: nat, g: nat)
    requires ProgramOk(al, c) && s < |c.ends| && c.bases[s] <= g < c.bases[s + 1] && g < |c.es|
    ensures AtAction(al, c.es[g]) && Placed(c.es, g) && c.es[g].pos / SEC == s && 0 <= c.bases[s] <= |c.es|
    ensures StartAt(c, c.es[g].pos) == Start(c, s)
  {
    SectionOf(al, c, s, g);
    assert PartOk(c, s);
  }

  lemma LinkedAim(c: Program, tgt: seq<int>, b: map<int, int>, n: nat)
    requires LinkedTo(c, tgt, b, n)
    ensures Aimed(c.es, tgt)
  {}

  lemma SlackStep(es: seq<Entry>, tgt: seq<int>, g: nat)
    requires Aimed(es, tgt) && g < |es|
    ensures Slack(es, tgt, g + 1) == Slack(es, tgt, g) - match es[g].act
      case Rel(_, op, _) => if Shrinks(es, tgt, g) then Saving(op) else 0
      case Align(mask) => (Off(es, g + 1) + Slack(es, tgt, g)) % (mask + 1)
      case _ => 0
  {}

  lemma LabelStep(al: seq<int>, c: Program, tgt: seq<int>, b: map<int, int>, g: nat, ofs: int)
    requires ProgramOk(al, c) && LinkedTo(c, tgt, b, g) && g < |c.es| && c.es[g].act.Label?
    requires ofs == StartAt(c, c.es[g].pos) + Slack(c.es, tgt, g)
    ensures c.es[g].pos in b && LinkedTo(c, tgt, b[c.es[g].pos := b[c.es[g].pos] + ofs], g + 1)
  {
    assert SlotAt(c, tgt, b, g, g);
    StepWords(al, c, tgt, b, g, c.es[g].pos, b[c.es[g].pos] + ofs);
  }

  lemma AlignWord(al: seq<int>, c: Program, tgt: seq<int>, b: map<int, int>, g: nat, ofs: int)
    requires LinkedTo(c, tgt, b, g) && g < |c.es| && c.es[g].act.Align?
    requires ofs == StartAt(c, c.es[g].pos) + Slack(c.es, tgt, g)
    ensures c.es[g].pos in b && b[c.es[g].pos] + ofs == Off(c.es, g + 1) + Slack(c.es, tgt, g)
  {
    assert SlotAt(c, tgt, b, g, g);
  }

  lemma BranchWords(al: seq<int>, c: Program, tgt: seq<int>, b: map<int, int>, s: nat, g: nat)
    requires ProgramOk(al, c) && LinkedTo(c, tgt, b, g) && g < |c.es| && c.es[g].act.Rel?
    requires s < |c.ends| && c.bases[s] <= g < c.bases[s + 1]
    ensures 0 <= c.bases[s] <= |c.es| && Aimed(c.es, tgt)
    ensures var pos := c.es[g].pos;
      pos in b && pos + 1 in b && (b[pos] < 0 <==> tgt[g] < 0) && StartAt(c, pos) == Start(c, s)
  {
    EntryFacts(al, c, s, g);
    assert SlotAt(c, tgt, b, g, g);
    if tgt[g] >= 0 { LabelPositive(al, c, tgt[g]); }
  }

  lemma BranchStep(al: seq<int>, c: Program, tgt: seq<int>, b: map<int, int>, g: nat, shrink: int)
    requires ProgramOk(al, c) && LinkedTo(c, tgt, b, g) && g < |c.es| && c.es[g].act.Rel?
    requires shrink == if Shrinks(c.es, tgt, g) then Saving(c.es[g].act.op) else 0
    ensures LinkedTo(c, tgt, b[c.es[g].pos + 1 := shrink], g + 1)
  {
    assert SlotAt(c, tgt, b, g, g);
    StepWords(al, c, tgt, b, g, c.es[g].pos + 1, shrink);
  }

  lemma LaterSection(al: seq<int>, c: Program, tgt: seq<int>, secofs: seq<int>, s: nat, g: nat)
    requires ProgramOk(al, c) && Aimed(c.es, tgt) && Sizes(c, secofs)
    requires g < |c.es| && s < |c.ends| && c.bases[s] <= g < c.bases[s + 1] && tgt[g] > g
    ensures var t := c.es[tgt[g]].pos / SEC;
      && s <= t <= |secofs|
      && Sum(secofs, s, t) == StartAt(c, c.es[tgt[g]].pos) - StartAt(c, c.es[g].pos)
  {
    var t := FindPart(al, c, tgt[g], |c.ends|);
    EntryFacts(al, c, s, g);
    EntryFacts(al, c, t, tgt[g]);
    if t < s {
      BasesGrow(al, c, t + 1, s);
      assert false;
    }
    SumIsStart(c, secofs, s, t);
  }

  /** Between two dasm_put calls of a section, or at its end. */
  predicate AtPut(c: Program, s: nat, g: nat, pos: int) {
    && s < |c.ends| && |c.bases| == |c.ends| + 1 && c.bases[s] <= g <= c.bases[s + 1] <= |c.es|
    && if g < c.bases[s + 1] then c.es[g].act.Begin? && pos == c.es[g].pos else pos == c.ends[s]
  }

  lemma BeginWord(al: seq<int>, c: Program, tgt: seq<int>, b: map<int, int>, s: nat, g: nat)
    requires ProgramOk(al, c) && LinkedTo(c, tgt, b, g) && g < |c.es| && c.es[g].act.Begin?
    requires s < |c.ends| && c.bases[s] <= g < c.bases[s + 1]
    ensures Aimed(c.es, tgt)
    ensures c.es[g].pos in b && b[c.es[g].pos] == c.es[g].act.start
    ensures g + 1 < c.bases[s + 1] <= |c.es| && !c.es[g + 1].act.Begin?
    ensures c.es[g + 1].p == c.es[g].act.start && c.es[g + 1].pos == c.es[g].pos + 1
  {
    assert SlotAt(c, tgt, b, g, g);
    assert PartOk(c, s);
    assert g + 1 < c.bases[s + 1];
    assert Follows(c.es[g + 1 - 1], c.es[g + 1]);
  }

  /** What comes behind an entry in its section. */
  lemma NextEntry(al: seq<int>, c: Program, s: nat, g: nat)
    requires ProgramOk(al, c) && s < |c.ends| && c.bases[s] <= g < c.bases[s + 1] && g < |c.es| && !c.es[g].act.Begin?
    ensures c.es[g].act.Stop? ==> AtPut(c, s, g + 1, c.es[g].pos)
    ensures !c.es[g].act.Stop? ==> g + 1 < c.bases[s + 1] <= |c.es| && !c.es[g + 1].act.Begin?
    ensures !c.es[g].act.Stop? ==> c.es[g + 1].p == c.es[g].p + Len(c.es[g].act) && c.es[g + 1].pos == c.es[g].pos + Slots(c.es[g].act)
  {
    assert PartOk(c, s);
    if g + 1 < c.bases[s + 1] { assert Follows(c.es[g + 1 - 1], c.es[g + 1]); }
  }

  lemma AllFinishedIs(log: seq<seq<Entry>>)
    requires forall s | 0 <= s < |log| :: Finished(log[s])
    ensures AllFinished(log)
  {}

  /** Global labels and references have a number below n. */
  ghost predicate GlobalsInRange(es: seq<Entry>, n: int) {
    && (forall j | 0 <= j < |es| && es[j].act.Label? && !es[j].act.pc :: es[j].act.index < n)
    && (forall j | 0 <= j < |es| && IsRef(es[j].act) && !es[j].act.pc && es[j].act.ref <= 246 :: es[j].act.ref < n)
  }

  lemma InRange(l: Links, c: Program, tgt: seq<int>, lg: seq<int>, pc: seq<int>)
    requires l.head == Heads(lg, pc) && Aimed(c.es, tgt) && (forall j | 0 <= j < |c.es| :: BoundAs(l.hist, c.es, tgt, j))
    requires LabelsHappened(c, l.hist) && LinksOk(l)
    ensures GlobalsInRange(c.es, |lg|)
  {
    forall j | 0 <= j < |c.es| && c.es[j].act.Label? && !c.es[j].act.pc ensures c.es[j].act.index < |lg| {
      var i :| 0 <= i < |l.hist| && l.hist[i] == EventsOf(c.es[j])[0];
    }
    forall j | 0 <= j < |c.es| && IsRef(c.es[j].act) && !c.es[j].act.pc && c.es[j].act.ref <= 246 ensures c.es[j].act.ref < |lg| {
      assert BoundAs(l.hist, c.es, tgt, j);
      var i :| 0 <= i < |l.hist| && l.hist[i] == EventsOf(c.es[j])[0];
      assert RefOk(l, i);
    }
  }

  /** Within less than m there is one multiple of m. */
  lemma OneMultiple(x: int, y: int, m: int)
    requires m > 0 && x % m == 0 && y % m == 0 && x <= y && y - x < m
    ensures x == y
  {
    var i, j := x / m, y / m;
    assert x == m * i && y == m * j;
    if i < j {
      AtLeast(m, j - i);
      assert false;
    }
    if j < i {
      AtLeast(m, i - j);
      assert false;
    }
  }

  /** Label j is the last one in the code, before g, of a global. */
  ghost predicate LastGlobal(es: seq<Entry>, j: nat, g: nat)
    requires j < |es| && g <= |es|
  {
    es[j].act.Label? && !es[j].act.pc && es[j].act.index >= 10
    && forall k | j < k < g && es[k].act.Label? && !es[k].act.pc :: es[k].act.index != es[j].act.index
  }

  /** The globals that are not defined here keep their addresses; those defined so far have theirs. */
  ghost predicate GlobalsOk(globals: seq<int>, gl: seq<int>, es: seq<Entry>, tgt: seq<int>, base: int, g: nat) {
    && |globals| == |gl| && Aimed(es, tgt) && g <= |es|
    && (forall k | 0 <= k < |gl| && NoLabel(es, k + 10) :: globals[k] == gl[k])
    && (forall j | 0 <= j < g && LastGlobal(es, j, g) && es[j].act.index - 10 < |gl| ::
          globals[es[j].act.index - 10] == base + Final(es, tgt, j))
  }

  lemma IsExternal(c: Program, tgt: seq<int>, b: map<int, int>, g: nat, n: nat)
    requires LinkedTo(c, tgt, b, |c.es|) && GlobalsInRange(c.es, n) && g < |c.es| && IsRef(c.es[g].act)
    ensures Aimed(c.es, tgt) && (tgt[g] < 0 ==> 10 <= c.es[g].act.ref < n)
  {
    assert SlotAt(c, tgt, b, g, |c.es|);
  }

  /** A reference leads to the word of its label, or to a global that is not defined here. */
  lemma WhereTo(al: seq<int>, c: Program, tgt: seq<int>, b: map<int, int>, g: nat, globals: seq<int>, gl: seq<int>, base: int)
    requires ProgramOk(al, c) && LinkedTo(c, tgt, b, |c.es|) && GlobalsInRange(c.es, |globals| + 10)
    requires g < |c.es| && IsRef(c.es[g].act) && GlobalsOk(globals, gl, c.es, tgt, base, g)
    ensures Aimed(c.es, tgt) && c.es[g].pos in b && (b[c.es[g].pos] < 0 <==> tgt[g] < 0)
    ensures tgt[g] >= 0 ==> b[c.es[g].pos] in b && Address(c.es, tgt, gl, base, g) == base + b[b[c.es[g].pos]]
    ensures tgt[g] >= 0 ==> b[b[c.es[g].pos]] == Final(c.es, tgt, tgt[g])
    ensures tgt[g] < 0 ==> 0 <= -b[c.es[g].pos] - 10 < |globals|
    ensures tgt[g] < 0 ==> Address(c.es, tgt, gl, base, g) == globals[-b[c.es[g].pos] - 10]
    ensures tgt[g] < 0 && c.es[g].act.Rel? ==> !Shrinks(c.es, tgt, g)
  {
    assert SlotAt(c, tgt, b, g, |c.es|);
    if tgt[g] >= 0 {
      LabelsFixed(al, c, tgt, b, g);
    } else {
      var k := c.es[g].act.ref - 10;
      assert NoLabel(c.es, k + 10);
    }
  }

  lemma LabelWordIs(al: seq<int>, c: Program, tgt: seq<int>, b: map<int, int>, g: nat, n: int)
    requires LinkedTo(c, tgt, b, |c.es|) && g < |c.es| && c.es[g].act.Label? && GlobalsInRange(c.es, n)
    ensures c.es[g].pos in b && b[c.es[g].pos] == Final(c.es, tgt, g) && (!c.es[g].act.pc ==> c.es[g].act.index < n)
  {
    assert SlotAt(c, tgt, b, g, |c.es|);
  }

  lemma GlobalsSame(globals: seq<int>, gl: seq<int>, es: seq<Entry>, tgt: seq<int>, base: int, g: nat)
    requires GlobalsOk(globals, gl, es, tgt, base, g) && g < |es|
    ensures !(es[g].act.Label? && !es[g].act.pc && es[g].act.index >= 10) ==> GlobalsOk(globals, gl, es, tgt, base, g + 1)
  {
    hide Final;
    var h := g + 1;
    if !(es[g].act.Label? && !es[g].act.pc && es[g].act.index >= 10) {
      forall j | 0 <= j < h && LastGlobal(es, j, h) && es[j].act.index - 10 < |gl|
        ensures globals[es[j].act.index - 10] == base + Final(es, tgt, j)
      {
        assert LastGlobal(es, j, g);
      }
    }
  }

  lemma GlobalSet(globals: seq<int>, gl: seq<int>, es: seq<Entry>, tgt: seq<int>, base: int, g: nat, v: int)
    requires GlobalsOk(globals, gl, es, tgt, base, g) && g < |es| && es[g].act.Label? && !es[g].act.pc
    requires 10 <= es[g].act.index < |gl| + 10 && v == base + Final(es, tgt, g)
    ensures GlobalsOk(globals[es[g].act.index - 10 := v], gl, es, tgt, base, g + 1)
  {
    hide Final;
    var idx, h := es[g].act.index, g + 1;
    var globals' := globals[idx - 10 := v];
    forall j | 0 <= j < h && LastGlobal(es, j, h) && es[j].act.index - 10 < |gl|
      ensures globals'[es[j].act.index - 10] == base + Final(es, tgt, j)
    {
      assert j < g ==> LastGlobal(es, j, g);
    }
    forall k | 0 <= k < |gl| && NoLabel(es, k + 10) ensures globals'[k] == gl[k] {}
  }

  lemma FirstAction(al: seq<int>, c: Program, s: nat, g: nat)
    requires ProgramOk(al, c) && g < |c.es| && c.es[g].act.Begin? && s < |c.ends| && c.bases[s] <= g < c.bases[s + 1]
    ensures g + 1 < c.bases[s + 1] <= |c.es| && !c.es[g + 1].act.Begin?
    ensures c.es[g + 1].p == c.es[g].act.start && c.es[g + 1].pos == c.es[g].pos + 1
  {
    assert PartOk(c, s);
    assert g + 1 < c.bases[s + 1];
    assert Follows(c.es[g + 1 - 1], c.es[g + 1]);
  }

  lemma GlobalsCount(globals: seq<int>, gl: seq<int>, es: seq<Entry>, tgt: seq<int>, base: int, g: nat)
    requires GlobalsOk(globals, gl, es, tgt, base, g)
    ensures |globals| == |gl| && Aimed(es, tgt) && g <= |es|
  {}

  lemma EmitStart(buf: seq<int>, c: Program, tgt: seq<int>, b: map<int, int>, gl: seq<int>, base: int)
    requires LinkedTo(c, tgt, b, |c.es|)
    ensures AllEmitted(buf, c.es, tgt, gl, base, 0) && GlobalsOk(gl, gl, c.es, tgt, base, 0) && Final(c.es, tgt, 0) == 0
  {}

  /** All that the second and third passes need to know. */
  lemma LinkReady(al: seq<int>, st: State, b: map<int, int>, lg: seq<int>, pc: seq<int>, secofs: seq<int>)
    requires |secofs| == |st.log| && forall s | 0 <= s < |st.log| :: secofs[s] == Off(st.log[s], |st.log[s]|) && Finished(st.log[s])
    requires st.l.head == Heads(lg, pc) && (forall k | 1 <= k < 10 && k < |lg| :: lg[k] <= 0) && forall k | 0 <= k < |pc| :: pc[k] <= 0
    requires Marked(st.l, b, |lg|) && StateOk(al, st)
    ensures var c := Whole(st.log, st.ends);
      && ProgramOk(al, c) && LinkedTo(c, Targets(c.es, b), b, 0) && Sizes(c, secofs) && GlobalsInRange(c.es, |lg|)
      && (forall k | 0 <= k < |pc| && pc[k] < 0 :: SomeLabel(c.es, -pc[k]))
      && Aimed(c.es, Targets(c.es, b)) && forall j | 0 <= j < |c.es| :: BoundAs(st.l.hist, c.es, Targets(c.es, b), j)
  {
    hide *;
    StateParts(al, st);
    IsSettled(st.l, lg, pc);
    AllFinishedIs(st.log);
    ReadyToLink(al, st, b, |lg|);
    SectionsOf(al, st);
    SizesAre(al, st, secofs);
    WholeFields(st.log, st.ends);
    LabelsDidHappen(al, st);
    DefsAreThere(al, st);
    var c := Whole(st.log, st.ends);
    forall k | 0 <= k < |pc| && pc[k] < 0 ensures SomeLabel(c.es, -pc[k]) {
      PcLabelThere(st.l, c, lg, pc, k);
    }
    InRange(st.l, c, Targets(c.es, b), lg, pc);
  }

  ghost predicate SomeLabel(es: seq<Entry>, pos: int) {
    exists t :: LabelAt(es, t, pos)
  }

  /** ofs is the final offset of the label at position pos. */
  ghost predicate LabelOfs(es: seq<Entry>, tgt: seq<int>, pos: int, ofs: int) {
    Aimed(es, tgt) && exists t :: LabelAt(es, t, pos) && ofs == Final(es, tgt, t)
  }

  lemma WhichLabel(es: seq<Entry>, pos: int) returns (t: nat)
    requires SomeLabel(es, pos)
    ensures LabelAt(es, t, pos)
  {
    t :| LabelAt(es, t, pos);
  }

  /** The word of a PC label that exists names its latest definition. */
  lemma PcLabelThere(l: Links, c: Program, lg: seq<int>, pc: seq<int>, k: nat)
    requires l.head == Heads(lg, pc) && k < |pc| && pc[k] < 0 && DefsThere(c, l.hist) && LinksOk(l)
    ensures SomeLabel(c.es, -pc[k]) && -pc[k] == LastDef(l.hist, |l.hist|, PC(k))
  {
    assert PC(k) in l.head;
    assert HeadOk(l, PC(k));
    LastDefIs(l.hist, |l.hist|, PC(k));
    assert l.hist[..|l.hist|] == l.hist;
    hide LinksOk;
    var d :| 0 <= d < |l.hist| && l.hist[d] == Def(PC(k), -pc[k]);
    assert exists t :: LabelAt(c.es, t, l.hist[d].pos);
  }

  ghost predicate LastIs(al: seq<int>, e: Entry, p: int)
    requires 0 <= p < |al|
  {
    e.p == p && e.act.Stop? && (e.act.section <==> al[p] == SECTION)
  }

  /** The section that is active behind the last entry of a dasm_put call. */
  function NextSection(al: seq<int>, e: Entry, section: nat): int {
    if e.act.Stop? && e.act.section && 0 <= e.p < |al| - 1 then al[e.p + 1] else section
  }

  lemma IsSettled(l: Links, lg: seq<int>, pc: seq<int>)
    requires l.head == Heads(lg, pc) && (forall k | 1 <= k < 10 && k < |lg| :: lg[k] <= 0) && forall k | 0 <= k < |pc| :: pc[k] <= 0
    ensures Settled(l) && forall n | LG(n) in l.head :: n < |lg|
  {}

  lemma BasesThere(al: seq<int>, c: Program, s: nat)
    requires ProgramOk(al, c) && s <= |c.ends|
    ensures |c.bases| == |c.ends| + 1 && 0 <= c.bases[s] <= |c.es| && c.bases[0] == 0 && c.bases[|c.ends|] == |c.es|
  {
    if s < |c.ends| { assert PartOk(c, s); }
  }

  lemma LinkStarts(c: Program, tgt: seq<int>, b: map<int, int>)
    requires LinkedTo(c, tgt, b, 0) && |c.bases| > 0 && c.bases[0] == 0
    ensures Aimed(c.es, tgt) && Start(c, 0) + Slack(c.es, tgt, 0) == 0
  {}

  lemma SectionBegins(al: seq<int>, c: Program, s: nat)
    requires ProgramOk(al, c) && s < |c.ends|
    ensures |c.bases| == |c.ends| + 1 && 0 <= c.bases[s] && AtPut(c, s, c.bases[s], s * SEC)
  {
    assert PartOk(c, s);
  }

  lemma InMiddle(al: seq<int>, c: Program, s: nat, g: nat, pos: int)
    requires ProgramOk(al, c) && AtPut(c, s, g, pos) && pos != c.ends[s]
    ensures g < c.bases[s + 1] <= |c.es| && c.es[g].act.Begin? && pos == c.es[g].pos
  {}

  lemma AtItsEnd(al: seq<int>, c: Program, s: nat, g: nat, pos: int)
    requires ProgramOk(al, c) && AtPut(c, s, g, pos) && pos == c.ends[s]
    ensures g == c.bases[s + 1]
  {
    if g < c.bases[s + 1] { SectionOf(al, c, s, g); }
  }

  lemma NextStart(c: Program, secofs: seq<int>, s: nat)
    requires Sizes(c, secofs) && s < |c.ends|
    ensures s < |secofs| && s + 1 < |c.bases| && 0 <= c.bases[s] <= c.bases[s + 1] <= |c.es| && Start(c, s + 1) == Start(c, s) + secofs[s]
  {
    assert SizeIs(c, s, secofs[s]);
  }

  lemma StartOfEnd(al: seq<int>, c: Program)
    requires ProgramOk(al, c)
    ensures |c.bases| == |c.ends| + 1 && c.bases[|c.ends|] == |c.es| && Start(c, |c.ends|) == Off(c.es, |c.es|)
  {}

  lemma NothingYet(l: Links)
    requires l.hist == [] && l.head.Keys == l.chain.Keys && forall id <- l.head :: l.head[id] == 0 && l.chain[id] == []
    ensures LinksOk(l)
  {}

  lemma CollapseStep(b: map<int, int>, c: seq<int>, k: nat, to: int)
    requires Threaded(b, c) && k < |c|
    ensures var b1 := Collapse(b, c[..k], to);
      c[k] in b1 && b1[c[k]] == NextLink(c, k + 1) && b1[c[k] := to] == Collapse(b, c[..k + 1], to)
    ensures c[k] > 0 && (NextLink(c, k + 1) > 0 <==> k + 1 < |c|)
  {
    assert c[..k + 1] == c[..k] + [c[k]];
    forall r <- b ensures r in c[..k + 1] <==> r in c[..k] || r == c[k] {}
    assert c[k] !in c[..k];
  }

  lemma LinkPositive(b: map<int, int>, c: seq<int>)
    requires Threaded(b, c)
    ensures NextLink(c, 0) > 0 <==> c != []
  {}

  lemma CollapseNone(b: map<int, int>, to: int)
    ensures Collapse(b, [], to) == b
  {}

  /** The chain of a label starts at its word, if that is positive. */
  lemma ChainOf(l: Links, id: Id)
    requires LinksOk(l) && id in l.head && id in l.chain
    ensures Threaded(l.b, l.chain[id]) && (l.head[id] > 0 <==> l.chain[id] != [])
    ensures l.head[id] > 0 ==> l.head[id] == NextLink(l.chain[id], 0)
  {
    assert HeadOk(l, id);
    NoNegative(l.hist, |l.hist|, id);
  }
}
