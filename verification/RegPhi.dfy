/** asm_phi_shuffle: at the head of a loop, every left PHI operand that has a register gets the
    register of its PHI. */
module Phi {
  import opened Moves
  import opened PhiState

  class PhiShuffler {
    const gpr: set<Reg>
    const fpr: set<Reg>
    const bias: nat               // references below are constants
    const remat: set<Ref>         // references that are cheaper to recompute than to reload
    const phiset: set<Reg>
    const phireg: map<Reg, Ref>
    const marked: set<Ref>        // left operands of PHIs
    ghost const own: map<Ref, Reg>
    var freeset: set<Reg>
    var weakset: set<Reg>
    var reg: map<Ref, Reg>
    var cost: map<Reg, RegCost>
    var spilled: set<Ref>
    var code: seq<Instr>
    ghost const before: seq<Instr> // the code so far
    ghost var more: seq<Instr>    // the part of the code emitted here
    ghost var after: map<Ref, Reg> // what the code relied on before

    constructor (gpr: set<Reg>, fpr: set<Reg>, bias: nat, remat: set<Ref>, phiset: set<Reg>, phireg: map<Reg, Ref>, marked: set<Ref>,
                 freeset: set<Reg>, weakset: set<Reg>, reg: map<Ref, Reg>, cost: map<Reg, RegCost>, spilled: set<Ref>, code: seq<Instr>,
                 ghost own: map<Ref, Reg>)
      requires InRange(gpr, fpr, phiset, phireg, marked, own, Alloc(freeset, weakset, reg, cost, spilled))
      ensures Valid() && this.code == code == before && more == [] && after == Needed(A())
      ensures this.gpr == gpr && this.fpr == fpr && this.phiset == phiset && this.phireg == phireg && this.own == own
      ensures A() == Alloc(freeset, weakset, reg, cost, spilled)
    {
      this.gpr, this.fpr, this.bias, this.remat, this.phiset, this.phireg, this.marked, this.own := gpr, fpr, bias, remat, phiset, phireg, marked, own;
      this.freeset, this.weakset, this.reg, this.cost, this.spilled, this.code := freeset, weakset, reg, cost, spilled, code;
      before, more, after := code, [], Needed(Alloc(freeset, weakset, reg, cost, spilled));
      new;
      NoCode(after);
    }

    ghost function A(): Alloc
      reads this
    {
      Alloc(freeset, weakset, reg, cost, spilled)
    }

    ghost function H(): Phis {
      Phis(gpr + fpr, gpr, phiset, phireg, own)
    }

    ghost predicate Valid()
      reads this
    {
      && InRange(gpr, fpr, phiset, phireg, marked, own, A())
      && code == more + before && Leads(more, Needed(A()), after)
    }

    /** ra_rename, without its bookkeeping for snapshots */
    method Rename(down: Reg, up: Reg)
      requires Valid() && down in gpr + fpr && down !in freeset && up in freeset && (down in gpr <==> up in gpr)
      modifies this`freeset, this`weakset, this`reg, this`cost, this`code, this`more
      ensures Valid() && down in old(cost) && A() == Renamed(old(A()), down, up)
      ensures more == [Mov(down, up)] + old(more) && code == [Mov(down, up)] + old(code)
    {
      hide InRange, AllocOk, PhisOk, Leads, Needed;
      RenamedValid(gpr, fpr, phiset, phireg, marked, own, A(), down, up, more, after);
      cost := cost[up := cost[down]];
      var ref := cost[up].ref;
      reg := reg[ref := up];
      cost := cost[down := RegCost(0, 0)];
      freeset := freeset + {down};
      freeset := freeset - {up};
      weakset := weakset - {up};
      code := [Mov(down, up)] + code;
      more := [Mov(down, up)] + more;
    }

    /** ra_restore: spill or rematerialize. The register is free then. */
    method Restore(ref: Ref) returns (r: Reg)
      requires Valid() && ref in reg
      modifies this`freeset, this`reg, this`spilled, this`code, this`more
      ensures Valid() && r == old(reg)[ref] && A() == Restored(old(A()), ref, ref !in remat)
      ensures code == (if ref in remat || r !in weakset then [Reload(r, ref)] else []) + old(code)
    {
      hide InRange, AllocOk, PhisOk, Leads, Needed;
      var load := ref in remat || reg[ref] !in weakset;
      RestoredValid(gpr, fpr, phiset, phireg, marked, own, A(), ref, ref !in remat, load, more, after);
      r := reg[ref];
      if ref !in remat {
        spilled := spilled + {ref};
      }
      freeset := freeset + {r};
      reg := reg - {ref};
      if load {
        code := [Reload(r, ref)] + code;
        more := [Reload(r, ref)] + more;
      } else {
        assert [] + more == more && [] + code == code;
      }
    }

    /** ra_evict: restore the cheapest of these registers, all of which are allocated; but a weak one
        if the cheapest one holds no constant and is not weak. */
    method Evict(allow: set<Reg>) returns (r: Reg)
      requires Valid() && allow != {} && allow <= gpr + fpr && allow !! freeset
      modifies this`freeset, this`reg, this`spilled, this`code, this`more
      ensures Valid() && r in allow && r in old(cost) && old(cost)[r].ref in old(reg)
      ensures A() == Restored(old(A()), old(cost)[r].ref, old(cost)[r].ref !in remat) && old(reg)[old(cost)[r].ref] == r
      ensures r in weakset || forall x <- allow :: x in cost && !Cheaper(cost[x], cost[r])
    {
      hide InRange, AllocOk, PhisOk, Leads, Needed;
      Allocated(gpr, fpr, phiset, phireg, marked, own, A(), allow);
      var best := PickBot(allow);
      var work := allow - {best};
      while work != {}
        invariant best in allow && work <= allow
        invariant forall x <- allow - work :: !Cheaper(cost[x], cost[best])
        decreases |work|
        modifies {}
      {
        var x := PickBot(work);
        if Cheaper(cost[x], cost[best]) {
          best := x;
        }
        work := work - {x};
      }
      var ref := cost[best].ref;
      if ref >= bias && weakset * allow != {} && best !in weakset {
        best := PickBot(weakset * allow);
        ref := cost[best].ref;
      }
      r := Restore(ref);
    }

    /** ra_pick: a free register of the set, or one that is freed now. */
    method Pick(allow: set<Reg>) returns (r: Reg)
      requires Valid() && allow != {} && allow <= gpr + fpr
      modifies this`freeset, this`reg, this`spilled, this`code, this`more
      ensures Valid() && r in allow && r in freeset
      ensures old(freeset) * allow != {} ==> A() == old(A()) && code == old(code)
      ensures old(freeset) * allow == {} ==> r in old(cost) && old(cost)[r].ref in old(reg) && old(reg)[old(cost)[r].ref] == r
      ensures old(freeset) * allow == {} ==> A() == Restored(old(A()), old(cost)[r].ref, old(cost)[r].ref !in remat)
    {
      hide InRange, AllocOk, PhisOk, Leads, Needed;
      RegistersOk(gpr, fpr, phiset, phireg, marked, own, A());
      var pick := freeset * allow;
      if pick == {} {
        assert allow !! freeset by { forall x <- allow ensures x !in freeset { assert x !in pick; } }
        r := Evict(allow);
      } else {
        r := PickTop(pick);
      }
    }

    /** What the lemmas about the state need. */
    lemma Sound()
      requires Valid()
      ensures PhisOk(H()) && AllocOk(H(), A()) && RegSetOk(gpr + fpr) && gpr !! fpr && marked == own.Keys
      ensures phiset <= gpr + fpr && phiset <= phireg.Keys && !(gpr <= phiset) && !(fpr <= phiset)
    {}

    /** One turn of the inner loop, over all PHI registers. */
    method Pass() returns (blocked: set<Reg>, blockedby: set<Reg>, ghost moved: bool)
      requires Valid()
      modifies this`freeset, this`weakset, this`reg, this`cost, this`spilled, this`code, this`more
      ensures Valid() && phiset <= phireg.Keys && Turn(H(), old(A()), A(), {}, blocked, blockedby, moved)
      ensures StayBoth(H(), old(A()), A()) && Unspilled(H(), old(A()), A())
    {
      hide InRange, AllocOk, PhisOk, Leads, Needed, Seen, Turn, Misplaced, Renamed, Restored, StayBoth, Unspilled;
      Sound();
      TurnBegins(H(), A());
      ghost var a0 := A();
      StaySelf(H(), a0);
      blocked, blockedby, moved := {}, {}, false;
      var todo := phiset;
      while todo != {}
        invariant Valid() && todo <= phiset && Turn(H(), a0, A(), todo, blocked, blockedby, moved)
        invariant StayBoth(H(), a0, A()) && Unspilled(H(), a0, A())
        decreases |todo|
      {
        Sound();
        var r := PickBot(todo);
        ghost var a1 := A();
        blocked, blockedby, moved := Place(r, a0, todo, blocked, blockedby, moved);
        StayThen(H(), a0, a1, A());
        UnspilledThen(H(), a0, a1, A());
        Fewer(todo - {r}, todo);
        todo := todo - {r};
      }
    }

    /** One PHI register: rename its operand to it if it is free, or holds something else than
        another PHI operand. */
    method Place(r: Reg, ghost a0: Alloc, ghost todo: set<Reg>, blocked0: set<Reg>, blockedby0: set<Reg>, ghost moved0: bool)
      returns (blocked: set<Reg>, blockedby: set<Reg>, ghost moved: bool)
      requires Valid() && phiset <= phireg.Keys && r in todo && Turn(H(), a0, A(), todo, blocked0, blockedby0, moved0)
      modifies this`freeset, this`weakset, this`reg, this`cost, this`spilled, this`code, this`more
      ensures Valid() && Turn(H(), a0, A(), todo - {r}, blocked, blockedby, moved)
      ensures StayBoth(H(), old(A()), A()) && Unspilled(H(), old(A()), A())
    {
      hide InRange, AllocOk, PhisOk, Leads, Needed, Seen, Turn, Misplaced, Renamed, Restored, StayBoth, Stay, Unspilled;
      Sound();
      ghost var a1 := A();
      StaySelf(H(), a1);
      blocked, blockedby, moved := blocked0, blockedby0, moved0;
      ghost var h := H();
      SlotOk(h, a0, A(), todo, blocked, blockedby, moved, r);
      var irl := phireg[r];
      var left := if irl in reg then reg[irl] else RID_NONE;
      if r == left {
        TurnSkips(h, a0, A(), todo, blocked, blockedby, moved, r);
      } else {
        if r !in freeset {
          var ref := cost[r].ref;
          if ref in marked {
            TurnBlocks(h, a0, A(), todo, blocked, blockedby, moved, r);
            blocked := blocked + {r};
            if left != RID_NONE {
              blockedby := blockedby + {left};
            }
            return;
          }
          TurnRestores(h, a0, A(), todo, blocked, blockedby, moved, ref, ref !in remat);
          RestoreKeeps(h, A(), ref, ref !in remat, irl);
          InvariantStays(h, A(), ref, ref !in remat);
          var _ := Restore(ref);
          Sound();
        }
        ghost var a2 := A();
        if left != RID_NONE {
          OperandOk(h, A(), irl);
          TurnMoves(h, a0, A(), todo, blocked, blockedby, moved, r);
          OperandStays(h, A(), left, r);
          Rename(left, r);
          StayThen(h, a1, a2, A());
          UnspilledThen(h, a1, a2, A());
          moved := true;
        } else {
          TurnLeaves(h, a0, A(), todo, blocked, blockedby, moved, r);
        }
      }
    }

    /** asm_phi_break: break a cycle in a register file by renaming to a free register. The other
        register file is left as it is. */
    method Break(blocked: set<Reg>, blockedby: set<Reg>, cls: set<Reg>, ghost keep: set<Reg>, ghost ready: set<Reg>)
      requires Valid() && (cls == gpr || cls == fpr) && phiset <= phireg.Keys && blocked <= phiset
      requires Cyclic(H(), A(), blocked * cls) && Cyclic(H(), A(), keep) && keep !! cls
      requires ready <= gpr + fpr && ready !! cls && forall r <- ready :: Ready(H(), A(), r)
      requires Misplaced(H(), A()) <= blocked
      modifies this`freeset, this`weakset, this`reg, this`cost, this`spilled, this`code, this`more
      ensures Valid() && Misplaced(H(), A()) <= Misplaced(H(), old(A())) && StayBoth(H(), old(A()), A())
      ensures Cyclic(H(), A(), keep) && forall r <- ready :: Ready(H(), A(), r)
      ensures blocked * cls != {} ==> exists r <- cls :: Ready(H(), A(), r)
    {
      hide InRange, AllocOk, PhisOk, Leads, Needed, Misplaced, Renamed, Restored, Cyclic, Ready, StayBoth, Unspilled;
      Sound();
      var candidates := blocked * cls;
      ghost var a0 := A();
      StaySelf(H(), a0);
      if candidates != {} {
        var up := MakeFree(blocked, cls, keep, ready);
        ghost var a1 := A();
        if candidates - blockedby != {} {
          candidates := candidates - blockedby;
        }
        Sound();
        var down := PickTop(candidates);
        CycleHeld(H(), A(), blocked * cls, down);
        CycleBroken(H(), A(), down, up, blocked * cls);
        RenameSpares(H(), A(), down, up, keep);
        forall r <- ready ensures Ready(H(), Renamed(A(), down, up), r) {
          ReadyToo(H(), A(), down, up, r);
        }
        OperandStays(H(), A(), down, up);
        Rename(down, up);
        StayThen(H(), a0, a1, A());
        assert Ready(H(), A(), down);
      }
    }

    /** A register that is not blocked, evicting its content if needed. */
    method MakeFree(blocked: set<Reg>, cls: set<Reg>, ghost keep: set<Reg>, ghost ready: set<Reg>) returns (up: Reg)
      requires Valid() && (cls == gpr || cls == fpr) && phiset <= phireg.Keys && blocked <= phiset
      requires Cyclic(H(), A(), blocked * cls) && Cyclic(H(), A(), keep) && keep !! cls
      requires ready <= gpr + fpr && ready !! cls && forall r <- ready :: Ready(H(), A(), r)
      requires Misplaced(H(), A()) <= blocked
      modifies this`freeset, this`reg, this`spilled, this`code, this`more
      ensures Valid() && Misplaced(H(), A()) <= Misplaced(H(), old(A())) && StayBoth(H(), old(A()), A())
      ensures Cyclic(H(), A(), blocked * cls) && Cyclic(H(), A(), keep) && forall r <- ready :: Ready(H(), A(), r)
      ensures up in cls && up in freeset
    {
      hide InRange, AllocOk, PhisOk, Leads, Needed, Misplaced, Renamed, Restored, Cyclic, Ready, StayBoth, Unspilled;
      Sound();
      ghost var a0 := A();
      StaySelf(H(), a0);
      ghost var x :| x in cls && x !in phiset;
      assert x in cls - blocked;
      up := Pick(cls - blocked);
      if a0.freeset * (cls - blocked) == {} {
        ghost var ref := a0.cost[up].ref;
        EvictStays(H(), a0, ref, ref !in remat, blocked, cls);
        RestoreSpares(H(), a0, ref, ref !in remat, blocked * cls);
        RestoreSpares(H(), a0, ref, ref !in remat, keep);
        forall r <- ready ensures Ready(H(), A(), r) {
          StillReady(H(), a0, ref, ref !in remat, r);
        }
      }
    }

    /** asm_phi_shuffle */
    method Shuffle()
      requires Valid() && phiset <= phireg.Keys
      modifies this`freeset, this`weakset, this`reg, this`cost, this`spilled, this`code, this`more
      ensures Valid() && Settled(H(), A()) && StayBoth(H(), old(A()), A())
    {
      hide InRange, AllocOk, PhisOk, Leads, Needed, Misplaced, Turn, Cyclic, Ready, Settled, Remaining, StayBoth, Unspilled;
      StaySelf(H(), A());
      while true
        invariant Valid() && StayBoth(H(), old(A()), A())
        decreases Remaining(H(), A())
      {
        ghost var a0 := A();
        var blocked, blockedby, moved := Pass();
        ghost var a1 := A();
        StayThen(H(), old(A()), a0, a1);
        Sound();
        MisplacedBlocked(H(), a0, a1, blocked, blockedby, moved);
        if blocked == {} {
          Finished(H(), a0, A(), blockedby, moved);
          return;
        }
        if freeset * blocked == {} {
          OnlyCycles(H(), a0, A(), blocked, blockedby, moved);
          CyclesInFile(H(), A(), blocked, gpr);
          CyclesInFile(H(), A(), blocked, fpr);
          Break(blocked, blockedby, gpr, blocked * fpr, {});
          StayThen(H(), old(A()), a1, A());
          ghost var a2 := A();
          ghost var ready := if exists r <- gpr :: Ready(H(), A(), r) then {(var r :| r in gpr && Ready(H(), A(), r); r)} else {};
          NoCycle(H(), A());
          Break(blocked, blockedby, fpr, {}, ready);
          StayThen(H(), old(A()), a2, A());
          assert blocked == blocked * gpr + blocked * fpr;
          ghost var r :| Ready(H(), A(), r);
          ReadyCounts(H(), A(), r);
        } else {
          FreeMeansMoved(H(), a0, A(), blocked, blockedby, moved);
        }
        Progress(H(), a0, a1, A(), blocked, blockedby, moved);
      }
    }
  }
}
