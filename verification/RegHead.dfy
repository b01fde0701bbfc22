/** The shuffle loop of asm_head_side: moves registers of the parent trace to the registers the side
    trace expects its inherited values in. */
module Head {
  import opened Moves

  /** Parent registers of the references still to be moved, and what they are for. */
  datatype Task = Task(
    parent: map<Ref, Reg>,        // where each inherited reference is in the parent
    target: map<Ref, Reg>,        // where the side trace wants it
    sloadins: map<Reg, Ref>)      // the reference that a live parent register holds

  /** The references of live0 are to be moved; all others are in the right register. */
  ghost predicate TaskOk(t: Task, all: set<Reg>, gpr: set<Reg>, live0: set<Reg>) {
    && RegSetOk(all) && gpr <= all && live0 <= all && live0 <= t.sloadins.Keys
    && t.parent.Keys == t.target.Keys && Injective(t.parent) && Injective(t.target)
    && (forall ref <- t.parent :: t.parent[ref] in all && t.target[ref] in all)
    && (forall rp <- live0 :: t.sloadins[rp] in t.parent && t.parent[t.sloadins[rp]] == rp
          && (rp in gpr <==> t.target[t.sloadins[rp]] in gpr))
    && (forall ref <- t.parent | t.parent[ref] !in live0 :: t.target[ref] == t.parent[ref])
  }

  /** In the middle: references whose parent register is not live any more are done. */
  ghost predicate During(t: Task, all: set<Reg>, gpr: set<Reg>, live0: set<Reg>, allow0: set<Reg>,
                         live: set<Reg>, allow: set<Reg>, freeset: set<Reg>, reg: map<Ref, Reg>, cost: map<Reg, Ref>) {
    && TaskOk(t, all, gpr, live0) && live <= live0 && allow == allow0 - (live0 - live) && freeset <= all
    && t.parent.Keys <= reg.Keys && allow0 <= all
    && (forall r <- all - freeset :: Occupied(t, live, reg, cost, r))
    && (forall rp <- live :: reg[t.sloadins[rp]] in all - freeset && cost[reg[t.sloadins[rp]]] == t.sloadins[rp]
          && (rp in gpr <==> reg[t.sloadins[rp]] in gpr))
    && (forall ref <- t.parent | t.parent[ref] !in live :: t.parent[ref] in freeset && t.parent[ref] !in allow)
    && Injective(At(t, live, reg))
  }

  ghost predicate Occupied(t: Task, live: set<Reg>, reg: map<Ref, Reg>, cost: map<Reg, Ref>, r: Reg) {
    r in cost && cost[r] in t.parent && cost[r] in reg && t.parent[cost[r]] in live && reg[cost[r]] == r
  }

  /** Where each reference must be in front of the code emitted so far. */
  ghost function At(t: Task, live: set<Reg>, reg: map<Ref, Reg>): map<Ref, Reg>
    requires t.parent.Keys <= reg.Keys
  {
    map ref <- t.parent.Keys :: if t.parent[ref] in live then reg[ref] else t.parent[ref]
  }

  class Shuffler {
    const gpr: set<Reg>
    const fpr: set<Reg>
    var freeset: set<Reg>
    var reg: map<Ref, Reg>        // ir->r
    var cost: map<Reg, Ref>       // the reference an allocated register holds
    var code: seq<Instr>

    constructor (gpr: set<Reg>, fpr: set<Reg>, freeset: set<Reg>, reg: map<Ref, Reg>, cost: map<Reg, Ref>)
      ensures this.gpr == gpr && this.fpr == fpr && this.freeset == freeset && this.reg == reg && this.cost == cost && code == []
    {
      this.gpr, this.fpr, this.freeset, this.reg, this.cost, code := gpr, fpr, freeset, reg, cost, [];
    }

    /** ra_rename, without its bookkeeping for snapshots */
    method Rename(down: Reg, up: Reg)
      requires down in cost && down !in freeset && up in freeset
      modifies this
      ensures reg == old(reg)[old(cost)[down] := up] && cost == old(cost)[up := old(cost)[down]]
      ensures freeset == old(freeset) + {down} - {up} && code == [Mov(down, up)] + old(code)
    {
      var ref := cost[down];
      cost := cost[up := ref];
      reg := reg[ref := up];
      freeset := freeset + {down};
      freeset := freeset - {up};
      code := [Mov(down, up)] + code;
    }

    /** The shuffle loop; false stands for the error that coalescing is too complex. */
    method Shuffle(live0: set<Reg>, allow0: set<Reg>, ghost t: Task, sloadins: map<Reg, Ref>) returns (ok: bool)
      requires sloadins == t.sloadins && TaskOk(t, gpr + fpr, gpr, live0) && gpr !! fpr && allow0 <= gpr + fpr
      requires t.parent.Keys <= reg.Keys && forall ref <- t.parent :: reg[ref] == t.target[ref] && t.target[ref] !in allow0
      requires freeset == (gpr + fpr) - (set rp <- live0 :: reg[sloadins[rp]])
      requires forall rp <- live0 :: reg[sloadins[rp]] in cost && cost[reg[sloadins[rp]]] == sloadins[rp]
      modifies this
      ensures ok ==> exists more :: code == more + old(code) && Leads(more, t.parent, t.target)
      ensures ok <==> !Stuck(t, live0, allow0, gpr) && !Stuck(t, live0, allow0, fpr)
    {
      hide During, Leads, Injective, TaskOk, Unmoved, Stuck, Remains;
      ghost var before := code;
      ghost var more: seq<Instr> := [];
      ghost var x := ClosedSet(t, live0, allow0, gpr, fpr);
      NothingMoved(t, gpr + fpr, gpr, live0, reg, gpr);
      NothingMoved(t, gpr + fpr, gpr, live0, reg, fpr);
      var live, allow := live0, allow0;
      Begin(t, gpr + fpr, gpr, live0, allow0, freeset, reg, cost);
      NoCode(t.target);
      while true
        invariant Doing(t, live0, allow0, live, allow, more, before) && Tracking(t, live0, allow0, live, x)
        decreases 2 * |live| + (if freeset * live == {} then 1 else 0)
      {
        ghost var live1 := live;
        live, allow, more := Coalesce(live, allow, sloadins, t, live0, allow0, more, before, x);
        if live == {} {
          AllDone(t, live0, reg);
          NotStuck(t, live0, allow0, gpr, fpr, x);
          return true;
        }
        if live != live1 { Fewer(live, live1); }
        LiveInside(t, gpr + fpr, gpr, live0, allow0, live, allow, freeset, reg, cost);
        assert live * gpr != {} || live * fpr != {};
        ok, more := BreakIn(gpr, live, allow, t, live0, allow0, more, before, x);
        if !ok {
          return;
        }
        ok, more := BreakIn(fpr, live, allow, t, live0, allow0, more, before, x);
        if !ok {
          return;
        }
        assert freeset * live != {};
      }
    }

    /** What was not moved yet, if it cannot be helped, and the cycle that cannot be broken, if any. */
    ghost predicate Tracking(t: Task, live0: set<Reg>, allow0: set<Reg>, live: set<Reg>, x: set<Reg>)
      reads this
    {
      && (allow0 * gpr <= live0 ==> Unmoved(t, live, reg, gpr))
      && (allow0 * fpr <= live0 ==> Unmoved(t, live, reg, fpr))
      && Remains(t, live0, allow0, live, gpr, fpr, x)
    }

    /** The state of the loop. */
    ghost predicate Doing(t: Task, live0: set<Reg>, allow0: set<Reg>, live: set<Reg>, allow: set<Reg>, more: seq<Instr>, before: seq<Instr>)
      reads this
    {
      && During(t, gpr + fpr, gpr, live0, allow0, live, allow, freeset, reg, cost)
      && code == more + before && t.parent.Keys <= reg.Keys && Leads(more, At(t, live, reg), t.target)
    }

    /** Coalesce free live registers by moving them to their targets. */
    method Coalesce(live1: set<Reg>, allow1: set<Reg>, sloadins: map<Reg, Ref>, ghost t: Task, ghost live0: set<Reg>, ghost allow0: set<Reg>,
                    ghost more1: seq<Instr>, ghost before: seq<Instr>, ghost x: set<Reg>)
      returns (live: set<Reg>, allow: set<Reg>, ghost more: seq<Instr>)
      requires Tracking(t, live0, allow0, live1, x)
      ensures Tracking(t, live0, allow0, live, x)
      requires Doing(t, live0, allow0, live1, allow1, more1, before) && t.sloadins == sloadins
      modifies this`freeset, this`code
      ensures Doing(t, live0, allow0, live, allow, more, before) && freeset * live == {} && live <= live1
      ensures live == live1 ==> old(freeset) * live1 == {} && freeset == old(freeset)
    {
      hide During, Leads, Injective, TaskOk, Unmoved, Remains;
      live, allow, more := live1, allow1, more1;
      while freeset * live != {}
        invariant Doing(t, live0, allow0, live, allow, more, before) && live <= live1
        invariant live == live1 ==> freeset == old(freeset)
        invariant Tracking(t, live0, allow0, live, x)
        decreases |live|
      {
        var work := freeset * live;
        LiveInside(t, gpr + fpr, gpr, live0, allow0, live, allow, freeset, reg, cost);
        var rp := PickBot(work);
        StillUnmoved(t, live, live - {rp}, reg, gpr);
        StillUnmoved(t, live, live - {rp}, reg, fpr);
        NotInCycle(t, gpr + fpr, gpr, fpr, live0, allow0, live, allow, freeset, reg, cost, x, rp);
        CoalesceStep(t, gpr + fpr, gpr, live0, allow0, live, allow, freeset, reg, cost, rp, more);
        Fewer(live - {rp}, live);
        var ref := sloadins[rp];
        live := live - {rp};
        allow := allow - {rp};
        freeset := freeset + {reg[ref]};
        code := [Mov(reg[ref], rp)] + code;
        more := [Mov(reg[ref], rp)] + more;
      }
    }

    /** If something is left in this register file, break a cycle of it; fails without a spare register. */
    method BreakIn(cls: set<Reg>, live: set<Reg>, allow: set<Reg>, ghost t: Task, ghost live0: set<Reg>, ghost allow0: set<Reg>,
                   ghost more1: seq<Instr>, ghost before: seq<Instr>, ghost x: set<Reg>)
      returns (ok: bool, ghost more: seq<Instr>)
      requires Doing(t, live0, allow0, live, allow, more1, before) && Tracking(t, live0, allow0, live, x)
      requires freeset * live * cls == {} && (cls == gpr || cls == fpr) && gpr !! fpr
      modifies this
      ensures ok ==> Doing(t, live0, allow0, live, allow, more, before) && Tracking(t, live0, allow0, live, x)
      ensures ok ==> if live * cls == {} then freeset == old(freeset) else freeset * live * cls != {}
      ensures ok ==> forall r :: r !in cls ==> (r in freeset <==> r in old(freeset))
      ensures !ok ==> Stuck(t, live0, allow0, cls)
    {
      hide During, Leads, Injective, TaskOk, Unmoved, Stuck, Remains;
      ok, more := true, more1;
      if live * cls != {} {
        var tmpset := freeset * allow * cls - live;
        if tmpset == {} {
          NoSpare(t, gpr + fpr, gpr, cls, live0, allow0, live, allow, freeset, reg, cost);
          IsStuck(t, gpr + fpr, gpr, cls, live0, allow0, live, allow, freeset, reg, cost);
          ok := false;
        } else {
          more := BreakCycle(live, allow, tmpset, cls, t, live0, allow0, more1, before);
        }
      }
    }

    /** The other register file. */
    ghost function Other(cls: set<Reg>): set<Reg> {
      if cls == gpr then fpr else gpr
    }

    /** Break cycles by renaming one target to a temporary register. */
    method BreakCycle(live: set<Reg>, allow: set<Reg>, tmpset: set<Reg>, cls: set<Reg>, ghost t: Task, ghost live0: set<Reg>, ghost allow0: set<Reg>,
                      ghost more1: seq<Instr>, ghost before: seq<Instr>)
      returns (ghost more: seq<Instr>)
      requires Doing(t, live0, allow0, live, allow, more1, before) && live * cls != {} && tmpset != {}
      requires tmpset == freeset * allow * cls - live && freeset * live * cls == {} && (cls == gpr || cls == fpr) && gpr !! fpr
      modifies this
      ensures Doing(t, live0, allow0, live, allow, more, before) && freeset * live * cls != {}
      ensures forall r :: r !in cls ==> (r in freeset <==> r in old(freeset))
      ensures !(allow0 * cls <= live0)
      ensures Unmoved(t, live, old(reg), Other(cls)) ==> Unmoved(t, live, reg, Other(cls))
    {
      hide During, Leads, Injective, TaskOk;
      HasSpare(t, gpr + fpr, gpr, live0, allow0, live, allow, freeset, reg, cost, cls);
      LiveInside(t, gpr + fpr, gpr, live0, allow0, live, allow, freeset, reg, cost);
      var down := PickBot(live * cls);
      assert down in freeset ==> down in freeset * live * cls;
      var up := PickBot(tmpset);
      RenameStep(t, gpr + fpr, gpr, cls, live0, allow0, live, allow, freeset, reg, cost, down, up, more1);
      OtherUnmoved(t, gpr + fpr, gpr, live0, allow0, live, allow, freeset, reg, cost, down, up, cls, Other(cls));
      Rename(down, up);
      more := [Mov(down, up)] + more1;
      assert down in freeset * live * cls;
    }
  }

  // ---- Exactly when it fails ------------------------------------------------------------------

  /** The targets of the live registers in x are in x again. */
  ghost predicate Closed(t: Task, x: set<Reg>) {
    x != {} && forall rp <- x :: rp in t.sloadins && t.sloadins[rp] in t.target && t.target[t.sloadins[rp]] in x
  }

  /** In this register file there is a cycle of moves, and no register to break it with. */
  ghost predicate Stuck(t: Task, live0: set<Reg>, allow0: set<Reg>, cls: set<Reg>) {
    allow0 * cls <= live0 && exists x: set<Reg> :: x <= live0 * cls && Closed(t, x)
  }

  /** Targets in this register file are still the original ones. */
  ghost predicate Unmoved(t: Task, live: set<Reg>, reg: map<Ref, Reg>, cls: set<Reg>) {
    forall rp <- live :: rp in t.sloadins && t.sloadins[rp] in t.target && t.sloadins[rp] in reg
      && (t.target[t.sloadins[rp]] in cls ==> reg[t.sloadins[rp]] == t.target[t.sloadins[rp]])
  }

  /** x is a cycle that cannot be broken, and still live; or it is empty, and there is none. */
  ghost predicate Remains(t: Task, live0: set<Reg>, allow0: set<Reg>, live: set<Reg>, gpr: set<Reg>, fpr: set<Reg>, x: set<Reg>) {
    if x == {} then !Stuck(t, live0, allow0, gpr) && !Stuck(t, live0, allow0, fpr)
    else x <= live && Closed(t, x) && ((x <= gpr && allow0 * gpr <= live0) || (x <= fpr && allow0 * fpr <= live0))
  }

  lemma ClosedSet(t: Task, live0: set<Reg>, allow0: set<Reg>, gpr: set<Reg>, fpr: set<Reg>) returns (x: set<Reg>)
    ensures Remains(t, live0, allow0, live0, gpr, fpr, x)
  {
    if Stuck(t, live0, allow0, gpr) {
      x :| x <= live0 * gpr && Closed(t, x);
    } else if Stuck(t, live0, allow0, fpr) {
      x :| x <= live0 * fpr && Closed(t, x);
    } else {
      x := {};
    }
  }

  lemma NotStuck(t: Task, live0: set<Reg>, allow0: set<Reg>, gpr: set<Reg>, fpr: set<Reg>, x: set<Reg>)
    requires Remains(t, live0, allow0, {}, gpr, fpr, x)
    ensures !Stuck(t, live0, allow0, gpr) && !Stuck(t, live0, allow0, fpr)
  {}

  lemma NothingMoved(t: Task, all: set<Reg>, gpr: set<Reg>, live0: set<Reg>, reg: map<Ref, Reg>, cls: set<Reg>)
    requires TaskOk(t, all, gpr, live0) && forall ref <- t.parent :: ref in reg && reg[ref] == t.target[ref]
    ensures Unmoved(t, live0, reg, cls)
  {}

  lemma StillUnmoved(t: Task, live: set<Reg>, live': set<Reg>, reg: map<Ref, Reg>, cls: set<Reg>)
    requires live' <= live
    ensures Unmoved(t, live, reg, cls) ==> Unmoved(t, live', reg, cls)
  {}

  lemma OtherUnmoved(t: Task, all: set<Reg>, gpr: set<Reg>, live0: set<Reg>, allow0: set<Reg>, live: set<Reg>, allow: set<Reg>,
                     freeset: set<Reg>, reg: map<Ref, Reg>, cost: map<Reg, Ref>, down: Reg, up: Reg, cls: set<Reg>, other: set<Reg>)
    requires During(t, all, gpr, live0, allow0, live, allow, freeset, reg, cost)
    requires down in live && down !in freeset && down in cls && cls !! other && (cls == gpr || other == gpr) && cls + other == all
    ensures down in cost && (Unmoved(t, live, reg, other) ==> Unmoved(t, live, reg[cost[down] := up], other))
  {
    assert Occupied(t, live, reg, cost, down);
    SameRef(t, cost[down], t.sloadins[t.parent[cost[down]]]);
    assert t.target[cost[down]] !in other;
    hide Occupied, Injective;
  }

  lemma HasSpare(t: Task, all: set<Reg>, gpr: set<Reg>, live0: set<Reg>, allow0: set<Reg>, live: set<Reg>, allow: set<Reg>,
                 freeset: set<Reg>, reg: map<Ref, Reg>, cost: map<Reg, Ref>, cls: set<Reg>)
    requires During(t, all, gpr, live0, allow0, live, allow, freeset, reg, cost) && freeset * allow * cls - live != {}
    ensures !(allow0 * cls <= live0)
  {
    hide Occupied, Injective, TaskOk;
    var r :| r in freeset * allow * cls - live;
    assert r in allow0 * cls && r !in live0;
  }

  /** All registers of a closed set are targets, so they are occupied while the set is live. */
  lemma NotInCycle(t: Task, all: set<Reg>, gpr: set<Reg>, fpr: set<Reg>, live0: set<Reg>, allow0: set<Reg>, live: set<Reg>, allow: set<Reg>,
                   freeset: set<Reg>, reg: map<Ref, Reg>, cost: map<Reg, Ref>, x: set<Reg>, rp: Reg)
    requires During(t, all, gpr, live0, allow0, live, allow, freeset, reg, cost) && rp in freeset
    requires allow0 * gpr <= live0 ==> Unmoved(t, live, reg, gpr)
    requires allow0 * fpr <= live0 ==> Unmoved(t, live, reg, fpr)
    requires Remains(t, live0, allow0, live, gpr, fpr, x)
    ensures Remains(t, live0, allow0, live - {rp}, gpr, fpr, x)
  {
    hide During, Unmoved, Closed;
    if x != {} && rp in x {
      DuringTask(t, all, gpr, live0, allow0, live, allow, freeset, reg, cost);
      CycleTargets(t, all, gpr, live0, x);
      var q := Reached(x, map q <- x :: t.target[t.sloadins[q]], rp);
      TargetTaken(t, all, gpr, fpr, live0, allow0, live, allow, freeset, reg, cost, x, q);
      assert false;
    }
  }

  lemma DuringTask(t: Task, all: set<Reg>, gpr: set<Reg>, live0: set<Reg>, allow0: set<Reg>, live: set<Reg>, allow: set<Reg>,
                   freeset: set<Reg>, reg: map<Ref, Reg>, cost: map<Reg, Ref>)
    requires During(t, all, gpr, live0, allow0, live, allow, freeset, reg, cost)
    ensures TaskOk(t, all, gpr, live0) && live <= live0
  {}

  /** Targets permute a closed set of registers. */
  lemma CycleTargets(t: Task, all: set<Reg>, gpr: set<Reg>, live0: set<Reg>, x: set<Reg>)
    requires TaskOk(t, all, gpr, live0) && x <= live0 && Closed(t, x)
    ensures forall q <- x :: q in t.sloadins && t.sloadins[q] in t.target && t.target[t.sloadins[q]] in x
    ensures forall q, r | q in x && r in x && q != r :: t.target[t.sloadins[q]] != t.target[t.sloadins[r]]
  {
    forall q, r | q in x && r in x && q != r ensures t.target[t.sloadins[q]] != t.target[t.sloadins[r]] {
      assert t.parent[t.sloadins[q]] == q && t.parent[t.sloadins[r]] == r;
    }
  }

  lemma TargetTaken(t: Task, all: set<Reg>, gpr: set<Reg>, fpr: set<Reg>, live0: set<Reg>, allow0: set<Reg>, live: set<Reg>, allow: set<Reg>,
                    freeset: set<Reg>, reg: map<Ref, Reg>, cost: map<Reg, Ref>, x: set<Reg>, q: Reg)
    requires During(t, all, gpr, live0, allow0, live, allow, freeset, reg, cost) && q in x && x != {}
    requires allow0 * gpr <= live0 ==> Unmoved(t, live, reg, gpr)
    requires allow0 * fpr <= live0 ==> Unmoved(t, live, reg, fpr)
    requires Remains(t, live0, allow0, live, gpr, fpr, x)
    ensures q in t.sloadins && t.sloadins[q] in t.target && t.target[t.sloadins[q]] !in freeset
  {
    hide Occupied, Injective, TaskOk;
  }

  /** An injective map of a finite set into itself reaches every element. */
  lemma Reached(x: set<Reg>, f: map<Reg, Reg>, r: Reg) returns (q: Reg)
    requires x <= f.Keys && r in x && (forall q <- x :: f[q] in x) && forall q, p | q in x && p in x && q != p :: f[q] != f[p]
    ensures q in x && f[q] == r
  {
    if q' :| q' in x && f[q'] == r {
      q := q';
    } else {
      CountImage(x, x - {r}, f);
      Fewer(x - {r}, x);
      assert false;
    }
  }

  /** Stuck: the live registers of the register file are closed under the moves. */
  lemma IsStuck(t: Task, all: set<Reg>, gpr: set<Reg>, cls: set<Reg>, live0: set<Reg>, allow0: set<Reg>, live: set<Reg>, allow: set<Reg>,
                freeset: set<Reg>, reg: map<Ref, Reg>, cost: map<Reg, Ref>)
    requires During(t, all, gpr, live0, allow0, live, allow, freeset, reg, cost) && Unmoved(t, live, reg, cls)
    requires freeset * live * cls == {} && live * cls != {} && allow0 * cls <= live0 && (cls == gpr || cls == all - gpr) && cls <= all
    ensures Stuck(t, live0, allow0, cls)
  {
    hide *;
    var x := live * cls;
    Crowded(t, all, gpr, cls, live0, allow0, live, allow, freeset, reg, cost, (all - freeset) * cls);
    AllowedSets(t, all, gpr, live0, allow0, live, allow, freeset, reg, cost);
    NotFree(all, freeset, live, cls);
    if x != (all - freeset) * cls {
      Fewer(x, (all - freeset) * cls);
      assert false;
    }
    forall rp <- x ensures rp in t.sloadins && t.sloadins[rp] in t.target && t.target[t.sloadins[rp]] in x {
      SameFile(t, all, gpr, cls, live0, allow0, live, allow, freeset, reg, cost, rp);
    }
    StuckBy(t, live0, allow0, cls, x);
  }

  lemma StuckBy(t: Task, live0: set<Reg>, allow0: set<Reg>, cls: set<Reg>, x: set<Reg>)
    requires allow0 * cls <= live0 && x <= live0 * cls && x != {}
    requires forall rp <- x :: rp in t.sloadins && t.sloadins[rp] in t.target && t.target[t.sloadins[rp]] in x
    ensures Stuck(t, live0, allow0, cls)
  {
    assert Closed(t, x);
  }

  lemma SameFile(t: Task, all: set<Reg>, gpr: set<Reg>, cls: set<Reg>, live0: set<Reg>, allow0: set<Reg>, live: set<Reg>, allow: set<Reg>,
                 freeset: set<Reg>, reg: map<Ref, Reg>, cost: map<Reg, Ref>, rp: Reg)
    requires During(t, all, gpr, live0, allow0, live, allow, freeset, reg, cost) && Unmoved(t, live, reg, cls)
    requires (cls == gpr || cls == all - gpr) && rp in live * cls
    ensures rp in t.sloadins && t.sloadins[rp] in t.target && t.target[t.sloadins[rp]] in (all - freeset) * cls
  {
    hide Occupied, Injective;
    assert t.target[t.sloadins[rp]] in all;
  }

  lemma Begin(t: Task, all: set<Reg>, gpr: set<Reg>, live0: set<Reg>, allow0: set<Reg>,
              freeset: set<Reg>, reg: map<Ref, Reg>, cost: map<Reg, Ref>)
    requires TaskOk(t, all, gpr, live0) && allow0 <= all
    requires t.parent.Keys <= reg.Keys && forall ref <- t.parent :: reg[ref] == t.target[ref] && t.target[ref] !in allow0
    requires freeset == all - (set rp <- live0 :: reg[t.sloadins[rp]])
    requires forall rp <- live0 :: reg[t.sloadins[rp]] in cost && cost[reg[t.sloadins[rp]]] == t.sloadins[rp]
    ensures During(t, all, gpr, live0, allow0, live0, allow0, freeset, reg, cost)
    ensures At(t, live0, reg) == t.target
  {
    assert At(t, live0, reg) == t.target;
  }

  lemma LiveInside(t: Task, all: set<Reg>, gpr: set<Reg>, live0: set<Reg>, allow0: set<Reg>, live: set<Reg>, allow: set<Reg>,
                   freeset: set<Reg>, reg: map<Ref, Reg>, cost: map<Reg, Ref>)
    requires During(t, all, gpr, live0, allow0, live, allow, freeset, reg, cost)
    ensures live <= all && RegSetOk(all) && freeset <= all
    ensures forall rp <- live :: rp in t.sloadins && t.sloadins[rp] in reg
  {}

  lemma AllDone(t: Task, live0: set<Reg>, reg: map<Ref, Reg>)
    requires t.parent.Keys <= reg.Keys
    ensures At(t, {}, reg) == t.parent
  {}

  lemma CoalesceStep(t: Task, all: set<Reg>, gpr: set<Reg>, live0: set<Reg>, allow0: set<Reg>, live: set<Reg>, allow: set<Reg>,
                     freeset: set<Reg>, reg: map<Ref, Reg>, cost: map<Reg, Ref>, rp: Reg, more: seq<Instr>)
    requires During(t, all, gpr, live0, allow0, live, allow, freeset, reg, cost) && rp in freeset && rp in live
    requires rp in t.sloadins && t.sloadins[rp] in reg && Leads(more, At(t, live, reg), t.target)
    ensures var d := reg[t.sloadins[rp]];
      During(t, all, gpr, live0, allow0, live - {rp}, allow - {rp}, freeset + {d}, reg, cost)
      && Leads([Mov(d, rp)] + more, At(t, live - {rp}, reg), t.target)
  {
    var ref := t.sloadins[rp];
    var d := reg[ref];
    var before, after := At(t, live, reg), At(t, live - {rp}, reg);
    CoalesceAt(t, all, gpr, live0, allow0, live, allow, freeset, reg, cost, rp);
    MoveInFront(more, before, t.target, ref, rp);
    hide Leads;
    assert allow - {rp} == allow0 - (live0 - (live - {rp}));
    forall r <- all - (freeset + {d}) ensures Occupied(t, live - {rp}, reg, cost, r) {
      assert Occupied(t, live, reg, cost, r);
      SameRef(t, cost[r], ref);
    }
    forall rq <- live - {rp} ensures reg[t.sloadins[rq]] != d {
      assert before[t.sloadins[rq]] != before[ref];
    }
    hide Injective, Occupied;
  }

  lemma SameRef(t: Task, i: Ref, j: Ref)
    requires Injective(t.parent) && i in t.parent && j in t.parent
    ensures t.parent[i] == t.parent[j] ==> i == j
  {}

  lemma CoalesceAt(t: Task, all: set<Reg>, gpr: set<Reg>, live0: set<Reg>, allow0: set<Reg>, live: set<Reg>, allow: set<Reg>,
                   freeset: set<Reg>, reg: map<Ref, Reg>, cost: map<Reg, Ref>, rp: Reg)
    requires During(t, all, gpr, live0, allow0, live, allow, freeset, reg, cost) && rp in freeset && rp in live
    ensures rp in t.sloadins && t.sloadins[rp] in t.parent && t.parent[t.sloadins[rp]] == rp
    ensures At(t, live - {rp}, reg) == At(t, live, reg)[t.sloadins[rp] := rp] && Injective(At(t, live - {rp}, reg))
    ensures At(t, live, reg)[t.sloadins[rp]] == reg[t.sloadins[rp]]
  {
    hide Occupied, Injective;
    var ref := t.sloadins[rp];
    var before, after := At(t, live, reg), At(t, live - {rp}, reg);
    forall i <- t.parent ensures after[i] == before[ref := rp][i] { SameRef(t, i, ref); }
    forall i <- t.parent | i != ref ensures before[i] != rp {
      SameRef(t, i, ref);
      if t.parent[i] in live { assert reg[t.sloadins[t.parent[i]]] in all - freeset; SameRef(t, i, t.sloadins[t.parent[i]]); }
    }
    StillInjective(before, ref, rp);
  }

  lemma StillInjective(at: map<Ref, Reg>, ref: Ref, r: Reg)
    requires Injective(at) && ref in at && forall i <- at | i != ref :: at[i] != r
    ensures Injective(at[ref := r])
  {}

  lemma RenameStep(t: Task, all: set<Reg>, gpr: set<Reg>, cls: set<Reg>, live0: set<Reg>, allow0: set<Reg>, live: set<Reg>, allow: set<Reg>,
                   freeset: set<Reg>, reg: map<Ref, Reg>, cost: map<Reg, Ref>, down: Reg, up: Reg, more: seq<Instr>)
    requires During(t, all, gpr, live0, allow0, live, allow, freeset, reg, cost)
    requires down in live && down !in freeset && up in freeset && up in allow && up !in live && down in cls && up in cls
    requires (cls == gpr || cls !! gpr) && Leads(more, At(t, live, reg), t.target)
    ensures down in cost
    ensures var reg', cost', freeset' := reg[cost[down] := up], cost[up := cost[down]], freeset + {down} - {up};
      During(t, all, gpr, live0, allow0, live, allow, freeset', reg', cost') && Leads([Mov(down, up)] + more, At(t, live, reg'), t.target)
  {
    RenameAt(t, all, gpr, live0, allow0, live, allow, freeset, reg, cost, down, up);
    var ref := cost[down];
    var reg', cost', freeset' := reg[ref := up], cost[up := ref], freeset + {down} - {up};
    var before := At(t, live, reg);
    MoveInFront(more, before, t.target, ref, up);
    hide Leads;
    forall r <- all - freeset' ensures Occupied(t, live, reg', cost', r) {
      assert r != up ==> Occupied(t, live, reg, cost, r);
    }
    forall rq <- live ensures reg'[t.sloadins[rq]] in all - freeset' && cost'[reg'[t.sloadins[rq]]] == t.sloadins[rq] {
      assert t.sloadins[rq] != ref ==> before[t.sloadins[rq]] == reg[t.sloadins[rq]];
    }
    hide Injective, Occupied;
  }

  lemma RenameAt(t: Task, all: set<Reg>, gpr: set<Reg>, live0: set<Reg>, allow0: set<Reg>, live: set<Reg>, allow: set<Reg>,
                 freeset: set<Reg>, reg: map<Ref, Reg>, cost: map<Reg, Ref>, down: Reg, up: Reg)
    requires During(t, all, gpr, live0, allow0, live, allow, freeset, reg, cost)
    requires down in live && down !in freeset && up in freeset && up in allow && up !in live
    ensures Occupied(t, live, reg, cost, down)
    ensures var ref, before := cost[down], At(t, live, reg);
      && At(t, live, reg[ref := up]) == before[ref := up] && before[ref] == down && ref == t.sloadins[t.parent[ref]]
      && (forall i <- t.parent | i != ref :: before[i] != up && before[i] != down)
      && Injective(before) && Injective(before[ref := up])
  {
    assert Occupied(t, live, reg, cost, down);
    var ref, before := cost[down], At(t, live, reg);
    forall i <- t.parent | i != ref ensures before[i] != up && before[i] != down {
      assert before[ref] != before[i];
      if t.parent[i] in live { SameRef(t, i, t.sloadins[t.parent[i]]); }
    }
    SameRef(t, ref, t.sloadins[t.parent[ref]]);
    StillInjective(before, ref, up);
    hide Occupied, Injective;
  }

  /** If no live register is free, the targets occupy just the live registers; so a free register
      that may be used is missing only if there is none that is not live itself. */
  lemma NoSpare(t: Task, all: set<Reg>, gpr: set<Reg>, cls: set<Reg>, live0: set<Reg>, allow0: set<Reg>, live: set<Reg>, allow: set<Reg>,
                freeset: set<Reg>, reg: map<Ref, Reg>, cost: map<Reg, Ref>)
    requires During(t, all, gpr, live0, allow0, live, allow, freeset, reg, cost)
    requires freeset * live * cls == {} && freeset * allow * cls - live == {} && cls <= all && (cls == gpr || cls == all - gpr)
    ensures allow0 * cls <= live0
  {
    hide *;
    var taken := (all - freeset) * cls;
    AllowedSets(t, all, gpr, live0, allow0, live, allow, freeset, reg, cost);
    Crowded(t, all, gpr, cls, live0, allow0, live, allow, freeset, reg, cost, taken);
    NotFree(all, freeset, live, cls);
    if live * cls != taken {
      Fewer(live * cls, taken);
      assert false;
    }
    OnlyLive(all, cls, live0, allow0, live, allow, freeset);
  }

  lemma AllowedSets(t: Task, all: set<Reg>, gpr: set<Reg>, live0: set<Reg>, allow0: set<Reg>, live: set<Reg>, allow: set<Reg>,
                    freeset: set<Reg>, reg: map<Ref, Reg>, cost: map<Reg, Ref>)
    requires During(t, all, gpr, live0, allow0, live, allow, freeset, reg, cost)
    ensures allow0 <= all && allow == allow0 - (live0 - live) && live <= all && live <= live0
  {}

  lemma NotFree(all: set<Reg>, freeset: set<Reg>, live: set<Reg>, cls: set<Reg>)
    requires freeset * live * cls == {} && live <= all
    ensures live * cls <= (all - freeset) * cls
  {
    forall r <- live * cls ensures r in (all - freeset) * cls { assert r !in freeset * live * cls; }
  }

  lemma OnlyLive(all: set<Reg>, cls: set<Reg>, live0: set<Reg>, allow0: set<Reg>, live: set<Reg>, allow: set<Reg>, freeset: set<Reg>)
    requires live * cls == (all - freeset) * cls && freeset * allow * cls - live == {} && allow == allow0 - (live0 - live) && allow0 <= all && live <= live0
    ensures allow0 * cls <= live0
  {
    forall r <- allow0 * cls ensures r in live0 {
      assert r in freeset * allow * cls - live || r in live0 || r in live * cls;
    }
  }

  /** There are no more occupied registers than live ones. */
  lemma Crowded(t: Task, all: set<Reg>, gpr: set<Reg>, cls: set<Reg>, live0: set<Reg>, allow0: set<Reg>, live: set<Reg>, allow: set<Reg>,
                freeset: set<Reg>, reg: map<Ref, Reg>, cost: map<Reg, Ref>, taken: set<Reg>)
    requires During(t, all, gpr, live0, allow0, live, allow, freeset, reg, cost)
    requires taken == (all - freeset) * cls && cls <= all && (cls == gpr || cls == all - gpr)
    ensures |taken| <= |live * cls|
  {
    forall r <- taken ensures Occupied(t, live, reg, cost, r) && t.parent[cost[r]] in live * cls {
      assert Occupied(t, live, reg, cost, r);
      SameRef(t, cost[r], t.sloadins[t.parent[cost[r]]]);
    }
    forall r, q | r in taken && q in taken && r != q ensures t.parent[cost[r]] != t.parent[cost[q]] {
      assert Occupied(t, live, reg, cost, r) && Occupied(t, live, reg, cost, q);
      SameRef(t, cost[r], cost[q]);
    }
    hide *;
    CountImage(taken, live * cls, map r <- taken :: t.parent[cost[r]]);
  }
}
