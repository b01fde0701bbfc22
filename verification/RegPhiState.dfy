/** Register allocation at the head of a loop, as asm_phi_shuffle changes it. */
module PhiState {
  import opened Moves

  /** The cost of evicting a register: the lowest one is evicted, and names its reference. */
  datatype RegCost = RegCost(score: nat, ref: Ref)

  predicate Cheaper(a: RegCost, b: RegCost) {
    a.score < b.score || (a.score == b.score && a.ref < b.ref)
  }

  datatype Alloc = Alloc(
    freeset: set<Reg>,
    weakset: set<Reg>,            // registers whose content is not needed by the code so far
    reg: map<Ref, Reg>,           // ir->r, for the references that have a register
    cost: map<Reg, RegCost>,
    spilled: set<Ref>)

  /** The PHIs: registers, left operands, and the register of each left operand. */
  datatype Phis = Phis(all: set<Reg>, gpr: set<Reg>, phiset: set<Reg>, phireg: map<Reg, Ref>, own: map<Ref, Reg>)

  ghost predicate PhisOk(h: Phis) {
    && RegSetOk(h.all) && h.gpr <= h.all && h.phiset <= h.all && h.phiset == h.phireg.Keys
    && (forall r <- h.phiset :: h.phireg[r] in h.own && h.own[h.phireg[r]] == r)
    && (forall ref <- h.own :: h.own[ref] in h.phiset && h.phireg[h.own[ref]] == ref)
  }

  /** Allocated registers hold one reference each. */
  ghost predicate AllocOk(h: Phis, a: Alloc) {
    && a.freeset <= h.all
    && (forall r <- h.all - a.freeset :: r in a.cost && a.cost[r].ref in a.reg && a.reg[a.cost[r].ref] == r)
    && (forall ref <- a.reg :: a.reg[ref] in h.all - a.freeset && a.reg[ref] in a.cost && a.cost[a.reg[ref]].ref == ref)
    && (forall ref <- a.reg | ref in h.own :: (a.reg[ref] in h.gpr <==> h.own[ref] in h.gpr))
  }

  /** PHI registers whose left operand is in another register. */
  function Misplaced(h: Phis, a: Alloc): set<Reg>
    requires h.phiset <= h.phireg.Keys
  {
    set r <- h.phiset | h.phireg[r] in a.reg && a.reg[h.phireg[r]] != r
  }

  /** What the code so far relies on. */
  ghost function Needed(a: Alloc): map<Ref, Reg> {
    map ref <- a.reg | a.reg[ref] !in a.weakset :: a.reg[ref]
  }

  /** All is well: operands sit in the registers of their PHIs, which no other PHI holds. */
  ghost predicate Settled(h: Phis, a: Alloc)
    requires h.phiset <= h.phireg.Keys
  {
    && (forall r <- h.phiset | h.phireg[r] in a.reg :: a.reg[h.phireg[r]] == r)
    && (forall r <- h.phiset, ref <- a.reg | a.reg[ref] == r && ref in h.own :: ref == h.phireg[r])
  }

  function Renamed(a: Alloc, down: Reg, up: Reg): Alloc
    requires down in a.cost
  {
    var ref := a.cost[down].ref;
    a.(reg := a.reg[ref := up], cost := a.cost[up := a.cost[down]][down := RegCost(0, 0)], freeset := a.freeset + {down} - {up}, weakset := a.weakset - {up})
  }

  function Restored(a: Alloc, ref: Ref, spill: bool): Alloc
    requires ref in a.reg
  {
    a.(reg := a.reg - {ref}, freeset := a.freeset + {a.reg[ref]}, spilled := if spill then a.spilled + {ref} else a.spilled)
  }

  lemma RenamedOk(h: Phis, a: Alloc, down: Reg, up: Reg, code: seq<Instr>, after: map<Ref, Reg>)
    requires PhisOk(h) && AllocOk(h, a) && down in h.all && down !in a.freeset && up in a.freeset && (down in h.gpr <==> up in h.gpr)
    requires Leads(code, Needed(a), after)
    ensures down in a.cost && AllocOk(h, Renamed(a, down, up))
    ensures Leads([Mov(down, up)] + code, Needed(Renamed(a, down, up)), after)
  {
    var ref, b := a.cost[down].ref, Renamed(a, down, up);
    var before, now := Needed(a), Needed(b);
    forall i, j | i in before && j in before && i != j ensures before[i] != before[j] {
      assert a.cost[before[i]].ref == i && a.cost[before[j]].ref == j;
    }
    assert now == before[ref := up];
    if ref in before {
      MoveInFront(code, before, after, ref, up);
    } else {
      OverwriteInFront(code, before, after, Mov(down, up));
      MoreBefore([Mov(down, up)] + code, before, now, after);
    }
    hide Leads;
  }

  /** An instruction in front that writes a register nobody needs. */
  lemma OverwriteInFront(code: seq<Instr>, before: map<Ref, Reg>, after: map<Ref, Reg>, i: Instr)
    requires Leads(code, before, after) && forall ref <- before :: before[ref] != i.dst
    ensures Leads([i] + code, before, after)
  {
    forall s: Regs, v: Values | Holds(s, before, v) ensures Holds(Run([i] + code, s, v), after, v) {
      assert ([i] + code)[1..] == code;
      assert Holds(Step(i, s, v), before, v);
      assert Holds(Run(code, Step(i, s, v), v), after, v);
    }
  }

  lemma RestoredOk(h: Phis, a: Alloc, ref: Ref, spill: bool, load: bool, code: seq<Instr>, after: map<Ref, Reg>)
    requires PhisOk(h) && AllocOk(h, a) && ref in a.reg && Leads(code, Needed(a), after) && (!load ==> a.reg[ref] in a.weakset)
    ensures AllocOk(h, Restored(a, ref, spill))
    ensures Leads((if load then [Reload(a.reg[ref], ref)] else []) + code, Needed(Restored(a, ref, spill)), after)
  {
    var b, r := Restored(a, ref, spill), a.reg[ref];
    var before, now := Needed(a), Needed(b);
    forall i, j | i in before && j in before && i != j ensures before[i] != before[j] {
      assert a.cost[before[i]].ref == i && a.cost[before[j]].ref == j;
    }
    assert now == before - {ref};
    if ref in before {
      ReloadInFront(code, before, after, ref);
    } else if load {
      OverwriteInFront(code, before, after, Reload(r, ref));
      assert now == before;
    } else {
      assert now == before && [] + code == code;
    }
    hide Leads;
  }

  ghost predicate InRange(gpr: set<Reg>, fpr: set<Reg>, phiset: set<Reg>, phireg: map<Reg, Ref>, marked: set<Ref>, own: map<Ref, Reg>, a: Alloc) {
    && gpr !! fpr && marked == own.Keys && !(gpr <= phiset) && !(fpr <= phiset)
    && PhisOk(Phis(gpr + fpr, gpr, phiset, phireg, own)) && AllocOk(Phis(gpr + fpr, gpr, phiset, phireg, own), a)
  }

  lemma RenamedValid(gpr: set<Reg>, fpr: set<Reg>, phiset: set<Reg>, phireg: map<Reg, Ref>, marked: set<Ref>, own: map<Ref, Reg>, a: Alloc,
                     down: Reg, up: Reg, code: seq<Instr>, after: map<Ref, Reg>)
    requires down in gpr + fpr && down !in a.freeset && up in a.freeset && (down in gpr <==> up in gpr) && Leads(code, Needed(a), after)
    requires InRange(gpr, fpr, phiset, phireg, marked, own, a)
    ensures down in a.cost && InRange(gpr, fpr, phiset, phireg, marked, own, Renamed(a, down, up))
    ensures Leads([Mov(down, up)] + code, Needed(Renamed(a, down, up)), after)
  {
    hide AllocOk, PhisOk, Leads, Needed, Renamed;
    RenamedOk(Phis(gpr + fpr, gpr, phiset, phireg, own), a, down, up, code, after);
  }

  lemma RestoredValid(gpr: set<Reg>, fpr: set<Reg>, phiset: set<Reg>, phireg: map<Reg, Ref>, marked: set<Ref>, own: map<Ref, Reg>, a: Alloc,
                      ref: Ref, spill: bool, load: bool, code: seq<Instr>, after: map<Ref, Reg>)
    requires ref in a.reg && Leads(code, Needed(a), after) && (!load ==> a.reg[ref] in a.weakset)
    requires InRange(gpr, fpr, phiset, phireg, marked, own, a)
    ensures InRange(gpr, fpr, phiset, phireg, marked, own, Restored(a, ref, spill))
    ensures Leads((if load then [Reload(a.reg[ref], ref)] else []) + code, Needed(Restored(a, ref, spill)), after)
  {
    hide AllocOk, PhisOk, Leads, Needed, Restored;
    RestoredOk(Phis(gpr + fpr, gpr, phiset, phireg, own), a, ref, spill, load, code, after);
  }

  lemma RegistersOk(gpr: set<Reg>, fpr: set<Reg>, phiset: set<Reg>, phireg: map<Reg, Ref>, marked: set<Ref>, own: map<Ref, Reg>, a: Alloc)
    requires InRange(gpr, fpr, phiset, phireg, marked, own, a)
    ensures RegSetOk(gpr + fpr)
  {}

  lemma Allocated(gpr: set<Reg>, fpr: set<Reg>, phiset: set<Reg>, phireg: map<Reg, Ref>, marked: set<Ref>, own: map<Ref, Reg>, a: Alloc, allow: set<Reg>)
    requires allow <= gpr + fpr && allow !! a.freeset
    requires InRange(gpr, fpr, phiset, phireg, marked, own, a)
    ensures RegSetOk(allow) && forall r <- allow :: r in a.cost && a.cost[r].ref in a.reg && a.reg[a.cost[r].ref] == r
  {}

  // ---- One pass over the PHI registers ---------------------------------------------------

  /** A PHI register after its turn: blocked by another operand, or settled. The registers of the
      operands of blocked ones are in blockedby. */
  ghost predicate Seen(h: Phis, a: Alloc, blocked: set<Reg>, blockedby: set<Reg>, r: Reg)
    requires r in h.phireg
  {
    if r in blocked then
      && (r !in a.freeset ==> r in a.cost && a.cost[r].ref in h.own && h.own[a.cost[r].ref] != r)
      && (h.phireg[r] in a.reg ==> a.reg[h.phireg[r]] in blockedby)
    else if h.phireg[r] in a.reg then a.reg[h.phireg[r]] == r
    else r in a.freeset
  }

  /** In the middle of a pass that began with a0. */
  ghost predicate Turn(h: Phis, a0: Alloc, a: Alloc, todo: set<Reg>, blocked: set<Reg>, blockedby: set<Reg>, moved: bool)
    requires h.phiset <= h.phireg.Keys
  {
    && todo <= h.phiset && blocked <= h.phiset - todo
    && (forall r <- h.phiset - todo :: Seen(h, a, blocked, blockedby, r))
    && Misplaced(h, a) <= Misplaced(h, a0)
    && (moved ==> Misplaced(h, a) != Misplaced(h, a0))
    && (!moved ==> Misplaced(h, a) == Misplaced(h, a0) && blocked !! a.freeset)
    && (!moved ==> a0.freeset <= a.freeset && Misplaced(h, a0) * a0.freeset <= todo)
  }

  lemma TurnBegins(h: Phis, a: Alloc)
    requires PhisOk(h)
    ensures Turn(h, a, a, h.phiset, {}, {}, false)
  {}

  lemma TurnSkips(h: Phis, a0: Alloc, a: Alloc, todo: set<Reg>, blocked: set<Reg>, blockedby: set<Reg>, moved: bool, r: Reg)
    requires PhisOk(h) && AllocOk(h, a) && Turn(h, a0, a, todo, blocked, blockedby, moved) && r in todo
    requires h.phireg[r] in a.reg && a.reg[h.phireg[r]] == r
    ensures Turn(h, a0, a, todo - {r}, blocked, blockedby, moved)
  {
    assert r !in Misplaced(h, a);
    assert h.phiset - (todo - {r}) == (h.phiset - todo) + {r};
  }

  lemma TurnBlocks(h: Phis, a0: Alloc, a: Alloc, todo: set<Reg>, blocked: set<Reg>, blockedby: set<Reg>, moved: bool, r: Reg)
    requires PhisOk(h) && AllocOk(h, a) && Turn(h, a0, a, todo, blocked, blockedby, moved) && r in todo && r !in a.freeset
    requires r in a.cost && a.cost[r].ref in h.own && !(h.phireg[r] in a.reg && a.reg[h.phireg[r]] == r)
    ensures var around := if h.phireg[r] in a.reg then blockedby + {a.reg[h.phireg[r]]} else blockedby;
      Turn(h, a0, a, todo - {r}, blocked + {r}, around, moved)
  {
    var around := if h.phireg[r] in a.reg then blockedby + {a.reg[h.phireg[r]]} else blockedby;
    forall q <- h.phiset - (todo - {r}) ensures Seen(h, a, blocked + {r}, around, q) {
      assert q != r ==> Seen(h, a, blocked, blockedby, q);
    }
  }

  lemma TurnRestores(h: Phis, a0: Alloc, a: Alloc, todo: set<Reg>, blocked: set<Reg>, blockedby: set<Reg>, moved: bool, ref: Ref, spill: bool)
    requires PhisOk(h) && AllocOk(h, a) && ref in a.reg && ref !in h.own && a.reg[ref] in todo
    requires Turn(h, a0, a, todo, blocked, blockedby, moved)
    ensures Turn(h, a0, Restored(a, ref, spill), todo, blocked, blockedby, moved)
  {
    var b := Restored(a, ref, spill);
    forall q <- h.phiset ensures h.phireg[q] in b.reg <==> h.phireg[q] in a.reg { assert h.phireg[q] in h.own; }
    assert Misplaced(h, b) == Misplaced(h, a);
    forall q <- h.phiset - todo ensures Seen(h, b, blocked, blockedby, q) {
      assert Seen(h, a, blocked, blockedby, q);
    }
  }

  lemma TurnLeaves(h: Phis, a0: Alloc, a: Alloc, todo: set<Reg>, blocked: set<Reg>, blockedby: set<Reg>, moved: bool, r: Reg)
    requires PhisOk(h) && AllocOk(h, a) && Turn(h, a0, a, todo, blocked, blockedby, moved) && r in todo
    requires h.phireg[r] !in a.reg && r in a.freeset
    ensures Turn(h, a0, a, todo - {r}, blocked, blockedby, moved)
  {
    assert r !in Misplaced(h, a);
    assert h.phiset - (todo - {r}) == (h.phiset - todo) + {r};
  }

  lemma TurnMoves(h: Phis, a0: Alloc, a: Alloc, todo: set<Reg>, blocked: set<Reg>, blockedby: set<Reg>, moved: bool, r: Reg)
    requires PhisOk(h) && AllocOk(h, a) && r in todo && r in h.phireg && r in a.freeset
    requires h.phireg[r] in a.reg && a.reg[h.phireg[r]] != r
    requires Turn(h, a0, a, todo, blocked, blockedby, moved)
    ensures a.reg[h.phireg[r]] in a.cost
    ensures Turn(h, a0, Renamed(a, a.reg[h.phireg[r]], r), todo - {r}, blocked, blockedby, true)
  {
    var left := a.reg[h.phireg[r]];
    var b := Renamed(a, left, r);
    assert a.cost[left].ref == h.phireg[r];
    forall q <- h.phiset | q != r ensures h.phireg[q] != h.phireg[r] { assert h.own[h.phireg[q]] == q; }
    assert Misplaced(h, b) == Misplaced(h, a) - {r} && r in Misplaced(h, a);
    forall q <- h.phiset - (todo - {r}) ensures Seen(h, b, blocked, blockedby, q) {
      if q != r {
        assert Seen(h, a, blocked, blockedby, q);
      }
    }
  }

  // ---- Between passes ----------------------------------------------------------------------

  /** No blocked register: finished. */
  lemma Finished(h: Phis, a0: Alloc, a: Alloc, blockedby: set<Reg>, moved: bool)
    requires PhisOk(h) && AllocOk(h, a) && Turn(h, a0, a, {}, {}, blockedby, moved)
    ensures Settled(h, a)
  {
    forall r <- h.phiset ensures h.phireg[r] in a.reg ==> a.reg[h.phireg[r]] == r {
      assert Seen(h, a, {}, blockedby, r);
    }
    forall r <- h.phiset, ref <- a.reg | a.reg[ref] == r && ref in h.own ensures ref == h.phireg[r] {
      assert Seen(h, a, {}, blockedby, r);
      assert r !in a.freeset && a.cost[r].ref == ref;
    }
  }

  /** Registers that hold operands of each other, each in the wrong place: nothing but cycles. */
  ghost predicate Cyclic(h: Phis, a: Alloc, b: set<Reg>)
    requires h.phiset <= h.phireg.Keys
  {
    b <= h.phiset && forall r <- b :: r !in a.freeset && InCycle(h, a, b, r)
  }

  ghost predicate InCycle(h: Phis, a: Alloc, b: set<Reg>, r: Reg) {
    && r in h.phireg && h.phireg[r] in a.reg && a.reg[h.phireg[r]] in b && a.reg[h.phireg[r]] != r
    && r in a.cost && a.cost[r].ref in h.own
  }

  /** If none of the blocked registers is free, they form cycles; so each of them also blocks another. */
  lemma OnlyCycles(h: Phis, a0: Alloc, a: Alloc, blocked: set<Reg>, blockedby: set<Reg>, moved: bool)
    requires PhisOk(h) && AllocOk(h, a) && Turn(h, a0, a, {}, blocked, blockedby, moved) && a.freeset * blocked == {}
    ensures Cyclic(h, a, blocked) && blocked <= h.phiset && blocked <= blockedby
  {
    hide PhisOk, AllocOk, Seen, Misplaced;
    forall r <- blocked ensures r !in a.freeset { assert r !in a.freeset * blocked; }
    forall r <- blocked ensures Displaced(h, a, r) && h.own[a.cost[r].ref] in blocked {
      IsDisplaced(h, a0, a, blocked, blockedby, moved, r);
    }
    var f := map r <- blocked :: h.own[a.cost[r].ref];
    forall q <- blocked ensures InCycle(h, a, blocked, q) && q in blockedby {
      MapsOnto(h, a, blocked, f, q);
      BlocksToo(h, a0, a, blocked, blockedby, moved, q);
    }
  }

  /** The register holds an operand that belongs elsewhere. */
  ghost predicate Displaced(h: Phis, a: Alloc, r: Reg) {
    r in a.cost && a.cost[r].ref in h.own && h.own[a.cost[r].ref] != r && h.own[a.cost[r].ref] in h.phireg
    && h.phireg[h.own[a.cost[r].ref]] == a.cost[r].ref && a.cost[r].ref in a.reg && a.reg[a.cost[r].ref] == r
  }

  lemma IsDisplaced(h: Phis, a0: Alloc, a: Alloc, blocked: set<Reg>, blockedby: set<Reg>, moved: bool, r: Reg)
    requires PhisOk(h) && AllocOk(h, a) && r in blocked && r !in a.freeset
    requires Turn(h, a0, a, {}, blocked, blockedby, moved)
    ensures Displaced(h, a, r) && h.own[a.cost[r].ref] in blocked
  {
    assert Seen(h, a, blocked, blockedby, r);
    var q := h.own[a.cost[r].ref];
    assert Seen(h, a, blocked, blockedby, q);
  }

  lemma MapsOnto(h: Phis, a: Alloc, blocked: set<Reg>, f: map<Reg, Reg>, q: Reg)
    requires q in blocked && blocked <= f.Keys
    requires forall r {:trigger f[r]} | r in blocked :: Displaced(h, a, r) && f[r] == h.own[a.cost[r].ref] && f[r] in blocked
    ensures InCycle(h, a, blocked, q)
  {
    hide Displaced;
    forall r, s | r in blocked && s in blocked && r != s ensures f[r] != f[s] {
      OneEach(h, a, r, s);
    }
    Onto(blocked, f, q);
    var r :| r in blocked && f[r] == q;
    OneEach(h, a, r, r);
    assert f[q] in blocked;
    OneEach(h, a, q, q);
  }

  lemma OneEach(h: Phis, a: Alloc, r: Reg, s: Reg)
    requires Displaced(h, a, r) && Displaced(h, a, s)
    ensures h.own[a.cost[r].ref] == h.own[a.cost[s].ref] ==> r == s
    ensures var q := h.own[a.cost[r].ref]; q in h.phireg && h.phireg[q] in a.reg && a.reg[h.phireg[q]] == r && q != r
    ensures r in a.cost && a.cost[r].ref in h.own
  {}

  /** The operand in blocked q is that of a blocked register. */
  lemma BlocksToo(h: Phis, a0: Alloc, a: Alloc, blocked: set<Reg>, blockedby: set<Reg>, moved: bool, q: Reg)
    requires PhisOk(h) && AllocOk(h, a) && q in blocked && q !in a.freeset
    requires Turn(h, a0, a, {}, blocked, blockedby, moved)
    ensures q in blockedby
  {
    IsDisplaced(h, a0, a, blocked, blockedby, moved, q);
    assert Seen(h, a, blocked, blockedby, h.own[a.cost[q].ref]);
  }

  /** Cycles stay in one register file. */
  lemma CyclesInFile(h: Phis, a: Alloc, b: set<Reg>, cls: set<Reg>)
    requires PhisOk(h) && AllocOk(h, a) && Cyclic(h, a, b) && (cls == h.gpr || cls == h.all - h.gpr)
    ensures Cyclic(h, a, b * cls)
  {}

  lemma RestoreSpares(h: Phis, a: Alloc, ref: Ref, spill: bool, b: set<Reg>)
    requires PhisOk(h) && AllocOk(h, a) && ref in a.reg
    ensures Misplaced(h, Restored(a, ref, spill)) <= Misplaced(h, a)
    ensures Cyclic(h, a, b) && a.reg[ref] !in b ==> Cyclic(h, Restored(a, ref, spill), b)
  {}

  lemma RenameSpares(h: Phis, a: Alloc, down: Reg, up: Reg, b: set<Reg>)
    requires PhisOk(h) && AllocOk(h, a) && down in h.all - a.freeset && up in a.freeset
    requires Cyclic(h, a, b) && down !in b
    ensures Cyclic(h, Renamed(a, down, up), b)
  {
    hide PhisOk, AllocOk, Renamed, InCycle;
    HasCost(h, a, down);
    forall r <- b ensures r !in Renamed(a, down, up).freeset && InCycle(h, Renamed(a, down, up), b, r) {
      assert r != up;
      CycleSpared(h, a, down, up, b, r);
    }
  }

  lemma CycleSpared(h: Phis, a: Alloc, down: Reg, up: Reg, b: set<Reg>, r: Reg)
    requires PhisOk(h) && AllocOk(h, a) && down in h.all - a.freeset && up in a.freeset && up !in b
    requires r in b && r !in a.freeset && InCycle(h, a, b, r) && down !in b
    ensures r !in Renamed(a, down, up).freeset && InCycle(h, Renamed(a, down, up), b, r)
  {}

  /** A free PHI register whose operand is elsewhere. */
  ghost predicate Ready(h: Phis, a: Alloc, r: Reg)
    requires h.phiset <= h.phireg.Keys
  {
    r in Misplaced(h, a) && r in a.freeset
  }

  lemma StillReady(h: Phis, a: Alloc, ref: Ref, spill: bool, r: Reg)
    requires PhisOk(h) && AllocOk(h, a) && ref in a.reg && Ready(h, a, r) && (r in h.gpr <==> a.reg[ref] !in h.gpr)
    ensures Ready(h, Restored(a, ref, spill), r)
  {}

  lemma ReadyToo(h: Phis, a: Alloc, down: Reg, up: Reg, r: Reg)
    requires PhisOk(h) && AllocOk(h, a) && down in h.all - a.freeset && up in a.freeset && (down in h.gpr <==> up in h.gpr)
    requires Ready(h, a, r) && (r in h.gpr <==> down !in h.gpr)
    ensures Ready(h, Renamed(a, down, up), r)
  {}

  /** Renaming one register of a cycle displaces nothing that was in place, and leaves it free for
      its operand, which is elsewhere. */
  lemma CycleBroken(h: Phis, a: Alloc, down: Reg, up: Reg, b: set<Reg>)
    requires PhisOk(h) && AllocOk(h, a) && Cyclic(h, a, b) && down in b && up in a.freeset
    ensures down in a.cost && Misplaced(h, Renamed(a, down, up)) <= Misplaced(h, a)
    ensures Ready(h, Renamed(a, down, up), down)
  {}

  const RID_NONE: nat := 128

  lemma SlotOk(h: Phis, a0: Alloc, a: Alloc, todo: set<Reg>, blocked: set<Reg>, blockedby: set<Reg>, moved: bool, r: Reg)
    requires PhisOk(h) && AllocOk(h, a) && Turn(h, a0, a, todo, blocked, blockedby, moved) && r in todo
    ensures r in h.all && r < RID_MAX && r in h.phireg && (forall ref <- a.reg :: a.reg[ref] < RID_MAX)
    ensures r !in a.freeset ==> r in a.cost && a.cost[r].ref in a.reg && a.reg[a.cost[r].ref] == r
  {}

  lemma RestoreKeeps(h: Phis, a: Alloc, ref: Ref, spill: bool, other: Ref)
    requires ref in a.reg && ref != other
    ensures a.reg[ref] in Restored(a, ref, spill).freeset
    ensures var b := Restored(a, ref, spill); (other in a.reg <==> other in b.reg) && (other in a.reg ==> b.reg[other] == a.reg[other])
  {}

  lemma OperandOk(h: Phis, a: Alloc, ref: Ref)
    requires PhisOk(h) && AllocOk(h, a) && ref in a.reg && ref in h.own
    ensures a.reg[ref] in h.all - a.freeset && (a.reg[ref] in h.gpr <==> h.own[ref] in h.gpr)
  {}

  lemma HasCost(h: Phis, a: Alloc, r: Reg)
    requires AllocOk(h, a) && r in h.all - a.freeset
    ensures r in a.cost && a.cost[r].ref in a.reg && a.reg[a.cost[r].ref] == r
  {}

  lemma ReadyCounts(h: Phis, a: Alloc, r: Reg)
    requires h.phiset <= h.phireg.Keys && Ready(h, a, r)
    ensures Misplaced(h, a) * a.freeset != {}
  {
    assert r in Misplaced(h, a) * a.freeset;
  }

  /** How much is left to do. */
  ghost function Remaining(h: Phis, a: Alloc): nat
    requires h.phiset <= h.phireg.Keys
  {
    2 * |Misplaced(h, a)| + (if Misplaced(h, a) * a.freeset == {} then 1 else 0)
  }

  /** A pass that moved something, or that is followed by the break of a cycle, makes progress. */
  lemma Progress(h: Phis, a0: Alloc, a: Alloc, b: Alloc, blocked: set<Reg>, blockedby: set<Reg>, moved: bool)
    requires h.phiset <= h.phireg.Keys && Turn(h, a0, a, {}, blocked, blockedby, moved)
    requires Misplaced(h, b) <= Misplaced(h, a) && (moved || Misplaced(h, b) * b.freeset != {})
    ensures Remaining(h, b) < Remaining(h, a0)
  {
    if Misplaced(h, b) != Misplaced(h, a0) {
      Fewer(Misplaced(h, b), Misplaced(h, a0));
    }
  }

  lemma FreeMeansMoved(h: Phis, a0: Alloc, a: Alloc, blocked: set<Reg>, blockedby: set<Reg>, moved: bool)
    requires h.phiset <= h.phireg.Keys && Turn(h, a0, a, {}, blocked, blockedby, moved) && a.freeset * blocked != {}
    ensures moved
  {}

  lemma CycleHeld(h: Phis, a: Alloc, b: set<Reg>, r: Reg)
    requires h.phiset <= h.phireg.Keys && Cyclic(h, a, b) && r in b
    ensures r !in a.freeset && r in a.cost && a.cost[r].ref in h.own
  {
    assert InCycle(h, a, b, r);
  }

  lemma NoCycle(h: Phis, a: Alloc)
    requires h.phiset <= h.phireg.Keys
    ensures Cyclic(h, a, {})
  {}

  // ---- No operand loses its register -----------------------------------------------------------

  /** A register that is free, or holds a PHI operand. */
  ghost predicate RoomAt(h: Phis, a: Alloc, y: Reg) {
    y in a.freeset || (y in a.cost && a.cost[y].ref in h.own)
  }

  /** A register file has such a register besides those of PHIs. */
  ghost predicate Room(h: Phis, a: Alloc, cls: set<Reg>) {
    exists y <- cls :: y !in h.phiset && RoomAt(h, a, y)
  }

  /** If a register file has room for it, its PHI operands keep registers, and need no spill slots. */
  ghost predicate Stay(h: Phis, a0: Alloc, a: Alloc, cls: set<Reg>) {
    Room(h, a0, cls) ==>
      && Room(h, a, cls)
      && forall ref <- h.own | h.own[ref] in cls :: (ref in a0.reg ==> ref in a.reg) && (ref in a.spilled ==> ref in a0.spilled)
  }

  ghost predicate StayBoth(h: Phis, a0: Alloc, a: Alloc) {
    Stay(h, a0, a, h.gpr) && Stay(h, a0, a, h.all - h.gpr)
  }

  /** PHI operands keep registers, and need no spill slots. */
  ghost predicate Unspilled(h: Phis, a0: Alloc, a: Alloc) {
    forall ref <- h.own :: (ref in a0.reg ==> ref in a.reg) && (ref in a.spilled ==> ref in a0.spilled)
  }

  lemma StaySelf(h: Phis, a: Alloc)
    ensures StayBoth(h, a, a) && Unspilled(h, a, a)
  {}

  lemma UnspilledThen(h: Phis, a: Alloc, b: Alloc, c: Alloc)
    requires Unspilled(h, a, b) && Unspilled(h, b, c)
    ensures Unspilled(h, a, c)
  {}

  lemma InvariantStays(h: Phis, a: Alloc, ref: Ref, spill: bool)
    requires PhisOk(h) && AllocOk(h, a) && ref in a.reg && ref !in h.own
    ensures StayBoth(h, a, Restored(a, ref, spill)) && Unspilled(h, a, Restored(a, ref, spill))
  {
    RestoreStays(h, a, ref, spill, h.gpr);
    RestoreStays(h, a, ref, spill, h.all - h.gpr);
  }

  lemma OperandStays(h: Phis, a: Alloc, down: Reg, up: Reg)
    requires PhisOk(h) && AllocOk(h, a) && down in h.all - a.freeset && up in a.freeset && down in a.cost
    requires up in h.phiset || a.cost[down].ref in h.own
    ensures StayBoth(h, a, Renamed(a, down, up)) && Unspilled(h, a, Renamed(a, down, up))
  {
    RenameStays(h, a, down, up, h.gpr);
    RenameStays(h, a, down, up, h.all - h.gpr);
  }

  lemma StayThen(h: Phis, a: Alloc, b: Alloc, c: Alloc)
    requires StayBoth(h, a, b) && StayBoth(h, b, c)
    ensures StayBoth(h, a, c)
  {
    hide Room;
  }

  lemma RestoreStays(h: Phis, a: Alloc, ref: Ref, spill: bool, cls: set<Reg>)
    requires PhisOk(h) && AllocOk(h, a) && ref in a.reg && (ref !in h.own || a.reg[ref] !in cls) && (cls == h.gpr || cls == h.all - h.gpr)
    ensures Stay(h, a, Restored(a, ref, spill), cls)
  {
    if Room(h, a, cls) {
      var y :| y in cls && y !in h.phiset && RoomAt(h, a, y);
      assert RoomAt(h, Restored(a, ref, spill), y);
    }
  }

  lemma RenameStays(h: Phis, a: Alloc, down: Reg, up: Reg, cls: set<Reg>)
    requires PhisOk(h) && AllocOk(h, a) && down in h.all - a.freeset && up in a.freeset && down in a.cost
    requires up in cls && up !in h.phiset ==> a.cost[down].ref in h.own
    ensures Stay(h, a, Renamed(a, down, up), cls)
  {
    if Room(h, a, cls) {
      var y :| y in cls && y !in h.phiset && RoomAt(h, a, y);
      assert RoomAt(h, Renamed(a, down, up), y);
    }
  }

  /** All operands in wrong registers were found blocked. */
  lemma MisplacedBlocked(h: Phis, a0: Alloc, a: Alloc, blocked: set<Reg>, blockedby: set<Reg>, moved: bool)
    requires h.phiset <= h.phireg.Keys && Turn(h, a0, a, {}, blocked, blockedby, moved)
    ensures Misplaced(h, a) <= blocked
  {
    forall r <- Misplaced(h, a) ensures r in blocked {
      assert Seen(h, a, blocked, blockedby, r);
    }
  }

  /** An operand in a register that is of no PHI is in the wrong one. */
  lemma Outside(h: Phis, a: Alloc, y: Reg, cls: set<Reg>)
    requires PhisOk(h) && AllocOk(h, a) && (cls == h.gpr || cls == h.all - h.gpr)
    requires y in cls && y !in h.phiset && y !in a.freeset && y in a.cost && a.cost[y].ref in h.own
    ensures var r := h.own[a.cost[y].ref]; r in cls && r in Misplaced(h, a) && r in h.phireg && h.phireg[r] in a.reg && a.reg[h.phireg[r]] == y
  {}

  lemma InsideCycle(h: Phis, a: Alloc, b: set<Reg>)
    requires h.phiset <= h.phireg.Keys && Cyclic(h, a, b)
    ensures forall r <- b :: r in h.phireg && h.phireg[r] in a.reg && a.reg[h.phireg[r]] in h.phiset
  {
    forall r <- b ensures r in h.phireg && h.phireg[r] in a.reg && a.reg[h.phireg[r]] in h.phiset {
      assert InCycle(h, a, b, r);
    }
  }

  /** With nothing but cycles left, room is a free register, for an operand outside would have a blocked one. */
  lemma RoomIsFree(h: Phis, a: Alloc, blocked: set<Reg>, cls: set<Reg>)
    requires PhisOk(h) && AllocOk(h, a) && Cyclic(h, a, blocked * cls) && blocked <= h.phiset && Misplaced(h, a) <= blocked
    requires (cls == h.gpr || cls == h.all - h.gpr) && Room(h, a, cls)
    ensures a.freeset * (cls - blocked) != {}
  {
    hide AllocOk, Misplaced;
    var y :| y in cls && y !in h.phiset && RoomAt(h, a, y);
    InsideCycle(h, a, blocked * cls);
    if y !in a.freeset {
      Outside(h, a, y, cls);
      assert false;
    } else {
      assert y in a.freeset * (cls - blocked);
    }
  }

  /** An eviction for want of a free register concerns only a register file without room. */
  lemma EvictStays(h: Phis, a: Alloc, ref: Ref, spill: bool, blocked: set<Reg>, cls: set<Reg>)
    requires PhisOk(h) && AllocOk(h, a) && Cyclic(h, a, blocked * cls) && blocked <= h.phiset && Misplaced(h, a) <= blocked
    requires (cls == h.gpr || cls == h.all - h.gpr) && a.freeset * (cls - blocked) == {} && ref in a.reg && a.reg[ref] in cls
    ensures StayBoth(h, a, Restored(a, ref, spill))
  {
    hide Stay, Misplaced, AllocOk, PhisOk, Restored, Cyclic;
    if Room(h, a, cls) {
      RoomIsFree(h, a, blocked, cls);
    }
    NoRoom(h, a, Restored(a, ref, spill), cls);
    RestoreStays(h, a, ref, spill, if cls == h.gpr then h.all - h.gpr else h.gpr);
  }

  lemma NoRoom(h: Phis, a: Alloc, b: Alloc, cls: set<Reg>)
    requires !Room(h, a, cls)
    ensures Stay(h, a, b, cls)
  {}
}
