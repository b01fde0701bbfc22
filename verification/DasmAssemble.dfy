/** A whole run of DynASM: any sequence of dasm_put calls, then the three passes. */
module Assemble {
  import opened Layout
  import opened Labels
  import opened Buffers
  import opened Put
  import opened Program
  import opened Linking
  import opened Resolve
  import opened Emit
  import opened Encoder

  const NO_ROOM: int := -1

  datatype Call = Call(start: nat, args: seq<int>)

  /** A branch in its short form, which leads from its end to its label. */
  ghost predicate ShortReaches(buf: seq<int>, es: seq<Entry>, tgt: seq<int>, j: nat)
    requires Aimed(es, tgt) && j < |es|
  {
    es[j].act.Rel? && Shrinks(es, tgt, j) ==>
      var f2, op := Final(es, tgt, j + 1), es[j].act.op;
      && 2 <= f2 <= |buf| && f2 + Signed(buf[f2 - 1], 128) == Final(es, tgt, tgt[j])
      && buf[f2 - 2] == if op == 0xe9 then 0xeb else op - 0x10
  }

  /** A branch in its long form, which leads to its label, or to the address of its global. */
  ghost predicate LongReaches(buf: seq<int>, es: seq<Entry>, tgt: seq<int>, gl: seq<int>, base: int, j: nat)
    requires Aimed(es, tgt) && j < |es|
  {
    es[j].act.Rel? && !Shrinks(es, tgt, j) ==>
      var f2, ref := Final(es, tgt, j + 1), es[j].act.ref;
      if tgt[j] >= 0 then LeadsTo(buf, base, f2, base + Final(es, tgt, tgt[j]))
      else 10 <= ref < |gl| + 10 && LeadsTo(buf, base, f2, gl[ref - 10])
  }

  /** Operands: numbers in the size of their action, and addresses of labels and globals. */
  ghost predicate OperandReads(buf: seq<int>, es: seq<Entry>, tgt: seq<int>, gl: seq<int>, base: int, j: nat)
    requires Aimed(es, tgt) && j < |es|
  {
    var f := Final(es, tgt, j);
    match es[j].act
    case Imm(code, n) =>
      var size := ImmSize(code, n);
      && 0 <= f && f + size <= |buf| && Little(buf, f, size) == n % Range(size)
      && (Short(n) && size == 1 ==> Signed(buf[f], 128) == n)
    case ImmLabel(_, ref) =>
      && 0 <= f && f + 4 <= |buf|
      && if tgt[j] >= 0 then Little(buf, f, 4) == (base + Final(es, tgt, tgt[j])) % DWORD
         else 10 <= ref < |gl| + 10 && Little(buf, f, 4) == gl[ref - 10] % DWORD
    case _ => true
  }

  ghost predicate AllWellFormed(al: seq<int>, calls: seq<Call>) {
    forall c <- calls :: WellFormed(al, c.start, c.args, 0, 0)
  }

  /** Logs of the sections and label events after the calls, the first of them in section s. */
  ghost function Logged(al: seq<int>, calls: seq<Call>, log: seq<seq<Entry>>, s: nat, hist: seq<Event>): (seq<seq<Entry>>, seq<Event>)
    requires AllWellFormed(al, calls) && s < |log|
  {
    if calls == [] then (log, hist) else
    var es := Stored(al, calls[0].start, calls[0].args, EndPos(log[s], s * SEC));
    var next := NextSection(al, es[|es| - 1], s);
    var log1, hist1 := log[s := log[s] + es], hist + Events(es);
    if 0 <= next < |log| then Logged(al, calls[1..], log1, next, hist1) else (log1, hist1)
  }

  method PutAll(d: Dasm, calls: seq<Call>) returns (st: int)
    requires d.Valid() && AllWellFormed(d.actionlist, calls)
    modifies d
    ensures st == S_OK ==> d.Valid() && d.globals == old(d.globals) && old(d.section < |d.log|)
    ensures st == S_OK ==> (d.log, d.hist) == Logged(d.actionlist, calls, old(d.log), old(d.section), old(d.hist))
  {
    hide WellFormed, SlotsFrom, Stored, Dasm.Valid, EndPos, Events, NextSection;
    var k := 0;
    assert calls[0..] == calls;
    InSection(d);
    while k < |calls|
      invariant k <= |calls| && d.Valid() && d.globals == old(d.globals) && d.section < |d.log| && |d.log| == old(|d.log|)
      invariant Logged(d.actionlist, calls[k..], d.log, d.section, d.hist) == Logged(d.actionlist, calls, old(d.log), old(d.section), old(d.hist))
    {
      var c := calls[k];
      assert calls[k..][0] == c && calls[k..][1..] == calls[k + 1..];
      InSection(d);
      if d.secpos[d.section] + SlotsFrom(d.actionlist, c.start, c.args, 0, 0) + 2 >= (d.section + 1) * SEC {
        return NO_ROOM;
      }
      d.Put(c.start, c.args);
      if d.status != S_OK {
        return d.status;
      }
      InSection(d);
      k := k + 1;
    }
    st := S_OK;
  }

  /** The calls of a program, and what is in the buffer at the end. */
  method Run(d: Dasm, calls: seq<Call>, base: int) returns (st: int, buffer: array<int>)
    requires d.Valid() && AllWellFormed(d.actionlist, calls)
    modifies d
    ensures st == S_OK ==> AllEmitted(buffer[..], d.code.es, d.tgt, old(d.globals), base, |d.code.es|)
    ensures st == S_OK ==> GlobalsOk(d.globals, old(d.globals), d.code.es, d.tgt, base, |d.code.es|)
    ensures st == S_OK ==> d.code == Whole(d.log, d.secpos) && old(d.section < |d.log|)
    ensures st == S_OK ==>
      var (log, hist) := Logged(d.actionlist, calls, old(d.log), old(d.section), old(d.hist));
      d.log == log && d.hist == hist + [Reset]
    ensures st == S_OK ==> forall j | 0 <= j < |d.code.es| :: BoundAs(d.hist, d.code.es, d.tgt, j)
    ensures st == S_OK ==> forall j | 0 <= j < |d.code.es| :: ShortReaches(buffer[..], d.code.es, d.tgt, j)
    ensures st == S_OK ==> forall j | 0 <= j < |d.code.es| :: LongReaches(buffer[..], d.code.es, d.tgt, old(d.globals), base, j)
    ensures st == S_OK ==> forall j | 0 <= j < |d.code.es| :: OperandReads(buffer[..], d.code.es, d.tgt, old(d.globals), base, j)
  {
    hide WellFormed, AllWellFormed, Logged, BoundAs, Emitted, ShortReaches, LongReaches, OperandReads, Final, Shrinks, GlobalsOk, Whole;
    hide Dasm.NoLocalPending;
    buffer := new int[0];
    st := PutAll(d, calls);
    if st != S_OK {
      return;
    }
    st := d.CheckStep(-1);
    if st != S_OK {
      return;
    }
    var size;
    st, size := d.Link();
    if st != S_OK {
      return;
    }
    SizeThere(d);
    buffer := new int[size];
    AllAimed(d);
    st := d.Encode(buffer, base);
    AllReach(buffer[..], d.actionlist, d.code, d.tgt, old(d.globals), base);
  }

  lemma InSection(d: Dasm)
    requires d.Valid()
    ensures d.section < |d.log| && |d.secpos| == |d.log|
    ensures d.secpos[d.section] == EndPos(d.log[d.section], d.section * SEC)
  {
    hide LinksOk, Flow, SlotOk;
    assert SectionOk(d.actionlist, State(d.L(), d.log, d.secpos), d.section);
  }

  lemma SizeThere(d: Dasm)
    requires d.Linked()
    ensures d.codesize >= 0 && ProgramOk(d.actionlist, d.code)
  {
    hide ProgramOk;
    if |d.code.es| > 0 {
      Closer(d.code.es, d.tgt, 0, |d.code.es|);
    }
  }

  /** A reference without a label in the program is one to a global. */
  ghost predicate External(es: seq<Entry>, tgt: seq<int>, n: int) {
    Aimed(es, tgt) && forall j | 0 <= j < |es| && IsRef(es[j].act) && tgt[j] < 0 :: 10 <= es[j].act.ref < n
  }

  lemma AllAimed(d: Dasm)
    requires d.Linked()
    ensures External(d.code.es, d.tgt, |d.globals| + 10)
  {
    hide ProgramOk, LinkedTo, GlobalsInRange, Final;
    LinkedAim(d.code, d.tgt, d.b, |d.code.es|);
    forall j | 0 <= j < |d.code.es| && IsRef(d.code.es[j].act) && d.tgt[j] < 0 ensures 10 <= d.code.es[j].act.ref < |d.globals| + 10 {
      IsExternal(d.code, d.tgt, d.b, j, |d.globals| + 10);
    }
  }

  lemma AllReach(buf: seq<int>, al: seq<int>, c: Program, tgt: seq<int>, gl: seq<int>, base: int)
    requires AllEmitted(buf, c.es, tgt, gl, base, |c.es|) && ProgramOk(al, c) && External(c.es, tgt, |gl| + 10)
    ensures forall j | 0 <= j < |c.es| :: ShortReaches(buf, c.es, tgt, j)
    ensures forall j | 0 <= j < |c.es| :: LongReaches(buf, c.es, tgt, gl, base, j)
    ensures forall j | 0 <= j < |c.es| :: OperandReads(buf, c.es, tgt, gl, base, j)
  {
    hide AllEmitted, Final, Shrinks, Aimed, LeadsTo;
    forall j | 0 <= j < |c.es|
      ensures ShortReaches(buf, c.es, tgt, j) && LongReaches(buf, c.es, tgt, gl, base, j) && OperandReads(buf, c.es, tgt, gl, base, j)
    {
      match c.es[j].act {
        case Rel(_, _, _) =>
          if Shrinks(c.es, tgt, j) { ShortBranch(buf, c.es, tgt, gl, base, j); } else { LongBranch(buf, c.es, tgt, gl, base, j); }
        case ImmLabel(_, _) => LabelReads(buf, c.es, tgt, gl, base, j);
        case Imm(_, _) => ImmReads(buf, c.es, tgt, gl, base, j);
        case _ =>
      }
    }
  }
}
