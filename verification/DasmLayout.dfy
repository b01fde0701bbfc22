/** The layout DynASM's second pass computes: every branch and alignment starts at its largest
    size, and shrinks where that is safe. Pure, over the sequence of all actions in the order of
    the final code. */
module Layout {
  /** One step of the encoder. */
  datatype Action =
    | Begin(start: nat)                  // a dasm_put call
    | Lit(byte: int) | Esc(byte: int)
    | Imm(code: int, n: int)
    | Space(count: nat, fill: int)
    | Rel(pc: bool, op: int, ref: int)   // a branch, whose opcode ends in op
    | ImmLabel(pc: bool, ref: int)
    | Label(pc: bool, index: int)
    | Align(mask: nat)
    | Stop(section: bool)

  /** Where its action byte is in the action list, and its first slot in the buffer. */
  datatype Entry = Entry(p: int, pos: int, act: Action)

  const IMM_S: int := 234
  const IMM_B: int := 235
  const IMM_W: int := 236
  const IMM_D: int := 237
  const IMM_WB: int := 238
  const IMM_DB: int := 239

  predicate IsImm(code: int) {
    IMM_S <= code <= IMM_DB
  }

  predicate Short(n: int) {
    -128 <= n <= 127
  }

  function ImmSize(code: int, n: int): (s: nat)
    ensures 1 <= s <= 4
  {
    if code == IMM_D then 4
    else if code == IMM_W then 2
    else if code == IMM_WB then if Short(n) then 1 else 2
    else if code == IMM_DB then if Short(n) then 1 else 4
    else 1
  }

  /** Bytes of an action before anything shrinks. */
  function Size(a: Action): (s: nat) {
    match a
    case Lit(_) => 1
    case Esc(_) => 1
    case Imm(code, n) => ImmSize(code, n)
    case Space(n, _) => n
    case Rel(_, _, _) => 4
    case ImmLabel(_, _) => 4
    case Align(mask) => mask
    case _ => 0
  }

  predicate OneByte(a: Action) {
    a.Lit? || a.Esc?
  }

  /** What a short form saves: a long jump 3 bytes, a long conditional branch 4, others nothing. */
  function Saving(op: int): (s: nat)
    ensures s in {0, 3, 4}
  {
    if op == 0xe9 then 3 else if 0x80 <= op < 0x90 then 4 else 0
  }

  /** The offset estimated in the first pass. */
  function Off(es: seq<Entry>, k: nat): (r: nat)
    requires k <= |es|
  {
    if k == 0 then 0 else Off(es, k - 1) + Size(es[k - 1].act)
  }

  /** tgt names the label a branch goes to, by its index, or is negative for an external one. */
  predicate Aimed(es: seq<Entry>, tgt: seq<int>) {
    |tgt| == |es| && forall k | 0 <= k < |es| :: tgt[k] < |es| && (tgt[k] >= 0 ==> es[tgt[k]].act.Label?)
  }

  /** How far the label seems to be from the end of the branch: exactly, if it is in front; as
      estimated, if it is behind. */
  function Distance(es: seq<Entry>, tgt: seq<int>, k: nat): int
    requires Aimed(es, tgt) && k < |es| && tgt[k] >= 0
    decreases k, 1
  {
    if tgt[k] > k then Off(es, tgt[k]) - Off(es, k + 1)
    else Off(es, tgt[k]) + Slack(es, tgt, tgt[k]) - Slack(es, tgt, k) - Off(es, k + 1)
  }

  predicate Shrinks(es: seq<Entry>, tgt: seq<int>, k: nat)
    requires Aimed(es, tgt) && k < |es|
    decreases k, 2
  {
    && es[k].act.Rel? && Saving(es[k].act.op) > 0 && tgt[k] >= 0
    && -128 - Saving(es[k].act.op) <= Distance(es, tgt, k) <= 127
  }

  /** How much the code in front of action k shrank, as a negative number. */
  function Slack(es: seq<Entry>, tgt: seq<int>, k: nat): int
    requires Aimed(es, tgt) && k <= |es|
    decreases k, 0
  {
    if k == 0 then 0
    else
      var s := Slack(es, tgt, k - 1);
      match es[k - 1].act
      case Rel(_, op, _) => if Shrinks(es, tgt, k - 1) then s - Saving(op) else s
      case Align(mask) => s - (Off(es, k) + s) % (mask + 1)
      case _ => s
  }

  /** The offset where action k ends up. */
  function Final(es: seq<Entry>, tgt: seq<int>, k: nat): int
    requires Aimed(es, tgt) && k <= |es|
  {
    Off(es, k) + Slack(es, tgt, k)
  }

  /** Branches that may shrink follow the bytes of their opcode. */
  predicate Placed(es: seq<Entry>, k: nat)
    requires k < |es|
  {
    match es[k].act
    case Rel(_, op, _) =>
      k >= 1 && OneByte(es[k - 1].act) && es[k - 1].act.byte == op && (Saving(op) == 4 ==> k >= 2 && OneByte(es[k - 2].act))
    case Imm(code, _) => code == IMM_WB || code == IMM_DB ==> k >= 2 && OneByte(es[k - 1].act) && OneByte(es[k - 2].act)
    case _ => true
  }

  predicate AllPlaced(es: seq<Entry>) {
    forall k | 0 <= k < |es| :: Placed(es, k)
  }

  // ---- Properties ------------------------------------------------------------------------

  /** One action ends where the next begins, at most as far behind as estimated. */
  lemma StepSize(es: seq<Entry>, tgt: seq<int>, k: nat)
    requires Aimed(es, tgt) && k < |es|
    ensures Slack(es, tgt, k + 1) <= Slack(es, tgt, k)
    ensures Final(es, tgt, k) <= Final(es, tgt, k + 1) <= Final(es, tgt, k) + Size(es[k].act)
    ensures OneByte(es[k].act) ==> Final(es, tgt, k + 1) == Final(es, tgt, k) + 1
    ensures !es[k].act.Rel? && !es[k].act.Align? ==> Final(es, tgt, k + 1) == Final(es, tgt, k) + Size(es[k].act)
    ensures es[k].act.Rel? ==>
              Final(es, tgt, k + 1) == Final(es, tgt, k) + 4 - (if Shrinks(es, tgt, k) then Saving(es[k].act.op) else 0)
  {
    if es[k].act.Align? { AlignStep(es, tgt, k); }
  }

  /** An alignment leaves the next action at a multiple of its boundary, the nearest one. */
  lemma AlignStep(es: seq<Entry>, tgt: seq<int>, k: nat)
    requires Aimed(es, tgt) && k < |es| && es[k].act.Align?
    ensures Final(es, tgt, k + 1) % (es[k].act.mask + 1) == 0
    ensures Final(es, tgt, k) <= Final(es, tgt, k + 1) <= Final(es, tgt, k) + es[k].act.mask
    ensures Slack(es, tgt, k + 1) <= Slack(es, tgt, k)
  {
    var m := es[k].act.mask + 1;
    var x := Off(es, k + 1) + Slack(es, tgt, k);
    assert Final(es, tgt, k + 1) == x - x % m;
    Rounded(x, m);
  }

  lemma Rounded(x: int, m: int)
    requires m > 0
    ensures 0 <= x % m < m && (x - x % m) % m == 0
  {
    assert x - x % m == m * (x / m);
    MultipleOf(x / m, m);
  }

  lemma MultipleOf(k: int, m: int)
    requires m > 0
    ensures (m * k) % m == 0
  {
    var d, r := k - (m * k) / m, (m * k) % m;
    assert m * d == r;
    if d >= 1 {
      AtLeast(m, d);
      assert false;
    }
    if d <= -1 {
      AtLeast(m, -d);
      assert false;
    }
  }

  lemma AtLeast(m: int, d: int)
    requires m > 0 && d >= 1
    ensures m * d >= m && m * -d <= -m
  {}

  lemma {:induction false} SlackFalls(es: seq<Entry>, tgt: seq<int>, j: nat, k: nat)
    requires Aimed(es, tgt) && j <= k <= |es|
    ensures Slack(es, tgt, k) <= Slack(es, tgt, j)
    ensures Final(es, tgt, j) <= Final(es, tgt, k)
    decreases k
  {
    if j < k {
      SlackFalls(es, tgt, j, k - 1);
      StepSize(es, tgt, k - 1);
    }
  }

  /** Code never gets further apart than estimated. */
  lemma Closer(es: seq<Entry>, tgt: seq<int>, j: nat, k: nat)
    requires Aimed(es, tgt) && j <= k <= |es|
    ensures 0 <= Final(es, tgt, k) - Final(es, tgt, j) <= Off(es, k) - Off(es, j)
    ensures Final(es, tgt, j) >= 0
  {
    SlackFalls(es, tgt, j, k);
    SlackFalls(es, tgt, 0, j);
  }

  /** A branch that was shrunk reaches its label, whatever else shrinks before or after it. */
  lemma BranchReaches(es: seq<Entry>, tgt: seq<int>, k: nat)
    requires Aimed(es, tgt) && k < |es| && Placed(es, k) && Shrinks(es, tgt, k)
    ensures Short(Final(es, tgt, tgt[k]) - Final(es, tgt, k + 1))
  {
    StepSize(es, tgt, k);
    if tgt[k] > k {
      Closer(es, tgt, k + 1, tgt[k]);
    } else {
      Closer(es, tgt, tgt[k], k);
    }
  }

  /** A branch stays long only if the estimate cannot exclude that it has to be: a short one would
      not have reached its label in front, or would not have reached it behind before shrinking. */
  lemma LongOnlyIf(es: seq<Entry>, tgt: seq<int>, k: nat)
    requires Aimed(es, tgt) && k < |es| && es[k].act.Rel? && tgt[k] >= 0 && Saving(es[k].act.op) > 0
    requires !Shrinks(es, tgt, k)
    ensures tgt[k] <= k ==> !Short(Final(es, tgt, tgt[k]) - (Final(es, tgt, k + 1) - Saving(es[k].act.op)))
    ensures tgt[k] > k ==> !Short(Off(es, tgt[k]) - Off(es, k + 1))
  {
    if tgt[k] > k {
      OffGrows(es, k + 1, tgt[k]);
    } else {
      StepSize(es, tgt, k);
      Closer(es, tgt, tgt[k], k);
    }
  }

  lemma {:induction false} OffGrows(es: seq<Entry>, j: nat, k: nat)
    requires j <= k <= |es|
    ensures Off(es, j) <= Off(es, k)
    decreases k
  {
    if j < k { OffGrows(es, j, k - 1); }
  }

  // ---- Offsets of concatenations -------------------------------------------------------------

  lemma {:induction false} OffPrefix(a: seq<Entry>, b: seq<Entry>, k: nat)
    requires k <= |a|
    ensures Off(a + b, k) == Off(a, k)
  {
    if k > 0 { OffPrefix(a, b, k - 1); }
  }

  lemma {:induction false} OffAppend(a: seq<Entry>, b: seq<Entry>, k: nat)
    requires k <= |b|
    ensures Off(a + b, |a| + k) == Off(a, |a|) + Off(b, k)
  {
    if k == 0 {
      OffPrefix(a, b, |a|);
    } else {
      OffAppend(a, b, k - 1);
    }
  }
}
