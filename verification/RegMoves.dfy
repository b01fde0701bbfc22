/** What the register moves and reloads emitted by the trace assembler do when they run. Code is
    emitted backwards: a new instruction runs before those emitted earlier. */
module Moves {
  type Reg = nat
  type Ref = nat

  datatype Instr =
    | Mov(dst: Reg, src: Reg)
    | Reload(dst: Reg, ref: Ref)      // from the spill slot of ref, or by rematerializing a constant

  /** Contents of the registers. */
  type Regs = Reg -> int

  /** The value of each reference; it is in the spill slot of those that have one. */
  type Values = Ref -> int

  function Put(s: Regs, r: Reg, v: int): Regs {
    (x: Reg) => if x == r then v else s(x)
  }

  function Step(i: Instr, s: Regs, v: Values): Regs {
    match i
    case Mov(dst, src) => Put(s, dst, s(src))
    case Reload(dst, ref) => Put(s, dst, v(ref))
  }

  function Run(code: seq<Instr>, s: Regs, v: Values): Regs
    decreases |code|
  {
    if code == [] then s else Run(code[1..], Step(code[0], s, v), v)
  }

  /** Every reference in `at` has its value in the register given there. */
  ghost predicate Holds(s: Regs, at: map<Ref, Reg>, v: Values) {
    forall ref <- at :: s(at[ref]) == v(ref)
  }

  /** From any state in which the references are in the registers of `before`, the code leads to one
      in which they are in the registers of `after`. */
  ghost predicate Leads(code: seq<Instr>, before: map<Ref, Reg>, after: map<Ref, Reg>) {
    forall s, v :: Holds(s, before, v) ==> Holds(Run(code, s, v), after, v)
  }

  predicate Injective(at: map<Ref, Reg>) {
    forall i, j | i in at && j in at && i != j :: at[i] != at[j]
  }

  lemma NoCode(at: map<Ref, Reg>)
    ensures Leads([], at, at)
  {}

  /** A move in front, from register `up`, instead of register `down` for one reference. */
  lemma MoveInFront(code: seq<Instr>, before: map<Ref, Reg>, after: map<Ref, Reg>, ref: Ref, up: Reg)
    requires Leads(code, before, after) && ref in before && Injective(before)
    ensures Leads([Mov(before[ref], up)] + code, before[ref := up], after)
  {
    var i := Mov(before[ref], up);
    forall s: Regs, v: Values | Holds(s, before[ref := up], v) ensures Holds(Run([i] + code, s, v), after, v) {
      assert ([i] + code)[1..] == code;
      assert before[ref := up][ref] == up && s(up) == v(ref);
      assert Holds(Step(i, s, v), before, v) by {
        forall j <- before ensures Step(i, s, v)(before[j]) == v(j) {
          assert j != ref ==> before[ref := up][j] == before[j];
        }
      }
      assert Holds(Run(code, Step(i, s, v), v), after, v);
    }
  }

  /** A reload in front: the reference need not be in any register before. */
  lemma ReloadInFront(code: seq<Instr>, before: map<Ref, Reg>, after: map<Ref, Reg>, ref: Ref)
    requires Leads(code, before, after) && ref in before && Injective(before)
    ensures Leads([Reload(before[ref], ref)] + code, before - {ref}, after)
  {
    var i := Reload(before[ref], ref);
    forall s: Regs, v: Values | Holds(s, before - {ref}, v) ensures Holds(Run([i] + code, s, v), after, v) {
      assert ([i] + code)[1..] == code;
      assert Holds(Step(i, s, v), before, v) by {
        forall j <- before ensures Step(i, s, v)(before[j]) == v(j) {
          assert j != ref ==> (before - {ref})[j] == before[j];
        }
      }
      assert Holds(Run(code, Step(i, s, v), v), after, v);
    }
  }

  /** More may be known before. */
  lemma MoreBefore(code: seq<Instr>, before: map<Ref, Reg>, more: map<Ref, Reg>, after: map<Ref, Reg>)
    requires Leads(code, before, after) && forall ref <- before :: ref in more && more[ref] == before[ref]
    ensures Leads(code, more, after)
  {
    forall s: Regs, v: Values | Holds(s, more, v) ensures Holds(Run(code, s, v), after, v) {
      assert Holds(s, before, v) by {
        forall ref <- before ensures s(before[ref]) == v(ref) { assert more[ref] == before[ref]; }
      }
    }
  }

  // ---- Register sets --------------------------------------------------------------------

  const RID_MAX: nat := 64

  predicate RegSetOk(s: set<Reg>) {
    forall r <- s :: r < RID_MAX
  }

  /** rset_pickbot */
  method PickBot(s: set<Reg>) returns (r: Reg)
    requires s != {} && RegSetOk(s)
    ensures r in s && forall x <- s :: r <= x
  {
    r := 0;
    while r !in s
      invariant forall x <- s :: r <= x
      decreases RID_MAX - r
    {
      ghost var x :| x in s;
      r := r + 1;
    }
  }

  /** rset_picktop */
  method PickTop(s: set<Reg>) returns (r: Reg)
    requires s != {} && RegSetOk(s)
    ensures r in s && forall x <- s :: x <= r
  {
    r := RID_MAX - 1;
    while r !in s
      invariant forall x <- s :: x <= r
      decreases r
    {
      ghost var x :| x in s;
      assert x < r;
      r := r - 1;
    }
  }

  // ---- Counting ---------------------------------------------------------------------------

  lemma Fewer(a: set<Reg>, b: set<Reg>)
    requires a <= b && a != b
    ensures |a| < |b|
  {
    assert |b - a| > 0;
    assert b == a + (b - a);
  }

  lemma {:induction false} CountImage(a: set<Reg>, b: set<Reg>, f: map<Reg, Reg>)
    requires a <= f.Keys && (forall r {:trigger f[r]} | r in a :: f[r] in b) && forall r, q | r in a && q in a && r != q :: f[r] != f[q]
    ensures |a| <= |b|
    decreases |a|
  {
    if a != {} {
      var r :| r in a;
      CountImage(a - {r}, b - {f[r]}, f);
    }
  }

  /** A map of a finite set to itself that is one to one reaches every element. */
  lemma Onto(b: set<Reg>, f: map<Reg, Reg>, q: Reg)
    requires b <= f.Keys && (forall r {:trigger f[r]} | r in b :: f[r] in b) && (forall r, s | r in b && s in b && r != s :: f[r] != f[s]) && q in b
    ensures q in (set r <- b :: f[r])
  {
    if q !in (set r <- b :: f[r]) {
      forall r <- b ensures f[r] in b - {q} { assert f[r] in (set r <- b :: f[r]); }
      Fewer(b - {q}, b);
      CountImage(b, b - {q}, f);
    }
  }
}
