/** The bytes the third pass leaves in the buffer for each action. */
module Emit {
  import opened Layout
  import opened Buffers
  import opened Program
  import opened Linking

  /** The low bytes of n, in little-endian order. */
  predicate WordAt(buf: seq<int>, at: int, n: int) {
    0 <= at && at + 2 <= |buf| && buf[at] == n % 256 && buf[at + 1] == n / 256 % 256
  }

  predicate DwordAt(buf: seq<int>, at: int, n: int) {
    0 <= at && at + 4 <= |buf| && WordAt(buf, at, n) && buf[at + 2] == n / 65536 % 256 && buf[at + 3] == n / 16777216 % 256
  }

  predicate ByteAt(buf: seq<int>, at: int, n: int) {
    0 <= at < |buf| && buf[at] == n % 256
  }

  ghost predicate Filled(buf: seq<int>, lo: int, hi: int, v: int) {
    0 <= lo <= hi <= |buf| && forall i | lo <= i < hi :: buf[i] == v % 256
  }

  /** A branch that was shrunk, saving n bytes. */
  predicate ShrunkBy(es: seq<Entry>, tgt: seq<int>, j: nat, n: nat)
    requires Aimed(es, tgt) && j < |es|
  {
    es[j].act.Rel? && Shrinks(es, tgt, j) && Saving(es[j].act.op) == n
  }

  /** An immediate in its short form, which the opcode two bytes in front of it must say. */
  predicate ShortImm(a: Action) {
    a.Imm? && (a.code == IMM_WB || a.code == IMM_DB) && Short(a.n)
  }

  /** The second opcode byte of a short conditional branch is no more. */
  predicate Gone(es: seq<Entry>, tgt: seq<int>, j: nat, g: nat)
    requires Aimed(es, tgt) && g <= |es|
  {
    j + 1 < g && ShrunkBy(es, tgt, j + 1, 4)
  }

  /** The plain byte of entry j, given that the entries before g were encoded. */
  function LitNow(es: seq<Entry>, tgt: seq<int>, j: nat, g: nat): int
    requires Aimed(es, tgt) && g <= |es| && j < |es| && OneByte(es[j].act)
  {
    if j + 1 < g && ShrunkBy(es, tgt, j + 1, 3) then 0xeb
    else if j + 2 < g && ShrunkBy(es, tgt, j + 2, 4) && OneByte(es[j + 1].act) then es[j + 1].act.byte - 0x10
    else if j + 2 < g && ShortImm(es[j + 2].act) then es[j].act.byte + 2
    else es[j].act.byte
  }

  /** Where a reference leads: an offset of the code, or the address of a global. */
  function Address(es: seq<Entry>, tgt: seq<int>, gl: seq<int>, base: int, j: nat): int
    requires Aimed(es, tgt) && j < |es| && IsRef(es[j].act)
  {
    if tgt[j] >= 0 then base + Final(es, tgt, tgt[j])
    else if 10 <= es[j].act.ref < |gl| + 10 then gl[es[j].act.ref - 10] else 0
  }

  /** Entry j is encoded right, with those before g encoded. */
  ghost predicate Emitted(buf: seq<int>, es: seq<Entry>, tgt: seq<int>, gl: seq<int>, base: int, j: nat, g: nat)
    requires Aimed(es, tgt) && j < |es| && g <= |es|
  {
    var f, f2 := Final(es, tgt, j), Final(es, tgt, j + 1);
    match es[j].act
    case Lit(_) => Gone(es, tgt, j, g) || ByteAt(buf, f, LitNow(es, tgt, j, g))
    case Esc(_) => Gone(es, tgt, j, g) || ByteAt(buf, f, LitNow(es, tgt, j, g))
    case Imm(code, n) =>
      if ImmSize(code, n) == 4 then DwordAt(buf, f, n) else if ImmSize(code, n) == 2 then WordAt(buf, f, n) else ByteAt(buf, f, n)
    case Space(_, fill) => Filled(buf, f, f2, fill)
    case Rel(_, _, _) =>
      var d := Address(es, tgt, gl, base, j) - (base + f2);
      if Shrinks(es, tgt, j) then ByteAt(buf, f2 - 1, d) else DwordAt(buf, f2 - 4, d)
    case ImmLabel(_, _) => DwordAt(buf, f, Address(es, tgt, gl, base, j))
    case Align(_) => Filled(buf, f, f2, 0x90)
    case _ => true
  }

  ghost predicate AllEmitted(buf: seq<int>, es: seq<Entry>, tgt: seq<int>, gl: seq<int>, base: int, g: nat) {
    Aimed(es, tgt) && g <= |es| && forall j | 0 <= j < g :: Emitted(buf, es, tgt, gl, base, j, g)
  }

  /** The short displacement, read as a signed byte, leads from the end of the branch to its label. */
  lemma ShortBranch(buf: seq<int>, es: seq<Entry>, tgt: seq<int>, gl: seq<int>, base: int, j: nat)
    requires AllEmitted(buf, es, tgt, gl, base, |es|) && AllPlaced(es) && j < |es| && es[j].act.Rel? && Shrinks(es, tgt, j)
    ensures var f2 := Final(es, tgt, j + 1);
      0 < f2 <= |buf| && f2 + Signed(buf[f2 - 1], 128) == Final(es, tgt, tgt[j])
    ensures var f2, op := Final(es, tgt, j + 1), es[j].act.op;
      2 <= f2 && buf[f2 - 2] == if op == 0xe9 then 0xeb else op - 0x10
  {
    hide Final, Slack, Distance, Off;
    assert Placed(es, j);
    BranchReaches(es, tgt, j);
    assert Emitted(buf, es, tgt, gl, base, j, |es|);
    StepSize(es, tgt, j);
    StepSize(es, tgt, j - 1);
    Closer(es, tgt, j - 1, j);
    var d := Final(es, tgt, tgt[j]) - Final(es, tgt, j + 1);
    ReadBack(d);
    if Saving(es[j].act.op) == 4 {
      StepSize(es, tgt, j - 2);
      Closer(es, tgt, j - 2, j);
      ShortOpcode4(buf, es, tgt, gl, base, j);
    } else {
      ShortOpcode3(buf, es, tgt, gl, base, j);
    }
  }

  lemma ReadBack(d: int)
    requires Short(d)
    ensures Signed(d % 256, 128) == d
  {}

  lemma ShortOpcode3(buf: seq<int>, es: seq<Entry>, tgt: seq<int>, gl: seq<int>, base: int, j: nat)
    requires AllEmitted(buf, es, tgt, gl, base, |es|) && 1 <= j < |es| && ShrunkBy(es, tgt, j, 3) && OneByte(es[j - 1].act)
    ensures var f := Final(es, tgt, j - 1); 0 <= f < |buf| && buf[f] == 0xeb
  {
    hide Final, Shrinks;
    assert Emitted(buf, es, tgt, gl, base, j - 1, |es|);
  }

  lemma ShortOpcode4(buf: seq<int>, es: seq<Entry>, tgt: seq<int>, gl: seq<int>, base: int, j: nat)
    requires AllEmitted(buf, es, tgt, gl, base, |es|) && 2 <= j < |es| && ShrunkBy(es, tgt, j, 4)
    requires OneByte(es[j - 1].act) && OneByte(es[j - 2].act) && es[j - 1].act.byte == es[j].act.op
    ensures var f := Final(es, tgt, j - 2); 0 <= f < |buf| && buf[f] == es[j].act.op - 0x10
  {
    hide Final, Shrinks;
    assert Emitted(buf, es, tgt, gl, base, j - 2, |es|);
  }

  /** A byte (or a larger unit with sign bit m) read as signed. */
  function Signed(v: int, m: int): int {
    if v >= m then v - 2 * m else v
  }

  // ---- Reading back ----------------------------------------------------------------------------

  /** The number in k bytes from there on, the least significant byte first. */
  function Little(buf: seq<int>, at: nat, k: nat): int
    requires at + k <= |buf|
    decreases k
  {
    if k == 0 then 0 else buf[at] + 256 * Little(buf, at + 1, k - 1)
  }

  const DWORD: int := 0x1_0000_0000

  lemma LowByte(n: int) returns (q: int, r: int)
    ensures q == n / 256 && r == n % 256 && n == 256 * q + r && 0 <= r < 256
  {
    q, r := n / 256, n % 256;
  }

  lemma HalfIs(n: int, q: int, r: int)
    requires n == 65536 * q + r && 0 <= r < 65536
    ensures n / 65536 == q && n % 65536 == r
  {}

  lemma HighIs(n: int, q: int, r: int)
    requires n == 16777216 * q + r && 0 <= r < 16777216
    ensures n / 16777216 == q
  {}

  lemma WholeIs(n: int, q: int, r: int)
    requires n == DWORD * q + r && 0 <= r < DWORD
    ensures n % DWORD == r
  {}

  lemma ByteReads(buf: seq<int>, at: int, n: int)
    requires ByteAt(buf, at, n)
    ensures Little(buf, at, 1) == n % 256
  {}

  lemma WordReads(buf: seq<int>, at: int, n: int)
    requires WordAt(buf, at, n)
    ensures Little(buf, at, 2) == n % 65536
  {
    var q, r := LowByte(n);
    var q1, r1 := LowByte(q);
    HalfIs(n, q1, 256 * r1 + r);
    assert Little(buf, at + 1, 1) == buf[at + 1];
  }

  /** The bytes of a dword, read back, are the number modulo 2^32. */
  lemma DwordReads(buf: seq<int>, at: int, n: int)
    requires DwordAt(buf, at, n)
    ensures Little(buf, at, 4) == n % DWORD
  {
    var q, r := LowByte(n);
    var q1, r1 := LowByte(q);
    var q2, r2 := LowByte(q1);
    var q3, r3 := LowByte(q2);
    HalfIs(n, q1, 256 * r1 + r);
    HighIs(n, q2, 65536 * r2 + 256 * r1 + r);
    WholeIs(n, q3, 16777216 * r3 + 65536 * r2 + 256 * r1 + r);
    assert Little(buf, at + 3, 1) == buf[at + 3];
    assert Little(buf, at + 2, 2) == buf[at + 2] + 256 * buf[at + 3];
  }

  /** Modulo 2^32, as signed number: a small one is the number itself. */
  lemma SignedReads(n: int)
    ensures (Signed(n % DWORD, DWORD / 2) - n) % DWORD == 0
    ensures -DWORD / 2 <= n < DWORD / 2 ==> Signed(n % DWORD, DWORD / 2) == n
  {
    var q, r := n / DWORD, n % DWORD;
    if -DWORD / 2 <= n < DWORD / 2 {
      WholeIs(n, if n < 0 then -1 else 0, if n < 0 then n + DWORD else n);
    }
    WholeIs(r - n, -q, 0);
    WholeIs(r - DWORD - n, -q - 1, 0);
  }

  /** The branch that ends at f2 leads to a: its last four bytes are the signed distance, modulo 2^32. */
  predicate LeadsTo(buf: seq<int>, base: int, f2: int, a: int) {
    && 4 <= f2 <= |buf|
    && var d := Signed(Little(buf, f2 - 4, 4), DWORD / 2);
       && (base + f2 + d - a) % DWORD == 0
       && (-DWORD / 2 <= a - (base + f2) < DWORD / 2 ==> base + f2 + d == a)
  }

  lemma DwordLeads(buf: seq<int>, base: int, f2: int, a: int)
    requires 4 <= f2 && DwordAt(buf, f2 - 4, a - (base + f2))
    ensures LeadsTo(buf, base, f2, a)
  {
    DwordReads(buf, f2 - 4, a - (base + f2));
    SignedReads(a - (base + f2));
  }

  /** The address of a label is where the code behind it is; that of an external one is the global's. */
  lemma LongBranch(buf: seq<int>, es: seq<Entry>, tgt: seq<int>, gl: seq<int>, base: int, j: nat)
    requires AllEmitted(buf, es, tgt, gl, base, |es|) && j < |es| && es[j].act.Rel? && !Shrinks(es, tgt, j)
    ensures tgt[j] >= 0 ==> LeadsTo(buf, base, Final(es, tgt, j + 1), base + Final(es, tgt, tgt[j]))
    ensures tgt[j] < 0 && 10 <= es[j].act.ref < |gl| + 10 ==> LeadsTo(buf, base, Final(es, tgt, j + 1), gl[es[j].act.ref - 10])
  {
    hide Final, Slack, Distance, Off, Shrinks, LeadsTo, DwordAt;
    assert Emitted(buf, es, tgt, gl, base, j, |es|);
    StepSize(es, tgt, j);
    Closer(es, tgt, 0, j);
    DwordLeads(buf, base, Final(es, tgt, j + 1), Address(es, tgt, gl, base, j));
  }

  /** An address among the operands, modulo 2^32. */
  lemma LabelReads(buf: seq<int>, es: seq<Entry>, tgt: seq<int>, gl: seq<int>, base: int, j: nat)
    requires AllEmitted(buf, es, tgt, gl, base, |es|) && j < |es| && es[j].act.ImmLabel?
    ensures var f := Final(es, tgt, j);
      && 0 <= f && f + 4 <= |buf|
      && (tgt[j] >= 0 ==> Little(buf, f, 4) == (base + Final(es, tgt, tgt[j])) % DWORD)
      && (tgt[j] < 0 && 10 <= es[j].act.ref < |gl| + 10 ==> Little(buf, f, 4) == gl[es[j].act.ref - 10] % DWORD)
  {
    hide Final, Slack, Distance, Off, Shrinks;
    assert Emitted(buf, es, tgt, gl, base, j, |es|);
    DwordReads(buf, Final(es, tgt, j), Address(es, tgt, gl, base, j));
  }

  /** 2^(8 * size) */
  function Range(size: nat): nat {
    match size case 1 => 256 case 2 => 65536 case _ => DWORD
  }

  /** An immediate operand; in one byte it is signed. */
  lemma ImmReads(buf: seq<int>, es: seq<Entry>, tgt: seq<int>, gl: seq<int>, base: int, j: nat)
    requires AllEmitted(buf, es, tgt, gl, base, |es|) && j < |es| && es[j].act.Imm?
    ensures var f, n, size := Final(es, tgt, j), es[j].act.n, ImmSize(es[j].act.code, es[j].act.n);
      && size in {1, 2, 4} && 0 <= f && f + size <= |buf| && Little(buf, f, size) == n % Range(size)
      && (Short(n) && size == 1 ==> Signed(buf[f], 128) == n)
  {
    hide Final, Slack, Distance, Off, Shrinks;
    assert Emitted(buf, es, tgt, gl, base, j, |es|);
    var f, n, size := Final(es, tgt, j), es[j].act.n, ImmSize(es[j].act.code, es[j].act.n);
    if size == 4 {
      DwordReads(buf, f, n);
    } else if size == 2 {
      WordReads(buf, f, n);
    } else {
      ByteReads(buf, f, n);
      if Short(n) { ReadBack(n); }
    }
  }

  // ---- One more entry ----------------------------------------------------------------------

  /** Bytes in front of `from` are as they were. */
  predicate SameFront(buf: seq<int>, buf': seq<int>, from: int) {
    |buf'| == |buf| && forall i | 0 <= i < from && i < |buf| :: buf'[i] == buf[i]
  }

  /** Entry g changes nothing that was encoded before. */
  predicate NoPatch(es: seq<Entry>, tgt: seq<int>, g: nat)
    requires Aimed(es, tgt) && g < |es|
  {
    !(es[g].act.Rel? && Shrinks(es, tgt, g)) && !ShortImm(es[g].act)
  }

  lemma EmittedStays(buf: seq<int>, buf': seq<int>, es: seq<Entry>, tgt: seq<int>, gl: seq<int>, base: int, j: nat, g: nat)
    requires Aimed(es, tgt) && j < g < |es| && Emitted(buf, es, tgt, gl, base, j, g)
    requires SameFront(buf, buf', Final(es, tgt, j + 1)) && Placed(es, j)
    requires j + 2 < g || NoPatch(es, tgt, g) || !OneByte(es[j].act) || (j + 2 == g && ShrunkBy(es, tgt, g, 3)) || (j + 1 == g && ShortImm(es[g].act))
    ensures Emitted(buf', es, tgt, gl, base, j, g + 1)
  {
    StepSize(es, tgt, j);
    if es[j].act.Rel? && j > 0 { StepSize(es, tgt, j - 1); }
  }

  lemma EmitPlain(buf: seq<int>, buf': seq<int>, es: seq<Entry>, tgt: seq<int>, gl: seq<int>, base: int, g: nat)
    requires AllEmitted(buf, es, tgt, gl, base, g) && AllPlaced(es) && g < |es| && NoPatch(es, tgt, g)
    requires SameFront(buf, buf', Final(es, tgt, g)) && Emitted(buf', es, tgt, gl, base, g, g + 1)
    ensures AllEmitted(buf', es, tgt, gl, base, g + 1)
  {
    var h := g + 1;
    forall j | 0 <= j < h ensures Emitted(buf', es, tgt, gl, base, j, h) {
      if j < g {
        assert Emitted(buf, es, tgt, gl, base, j, g) && Placed(es, j);
        Closer(es, tgt, j + 1, g);
        EmittedStays(buf, buf', es, tgt, gl, base, j, g);
      }
    }
  }

  /** A patch of one of the two plain bytes in front. */
  lemma EmitPatch(buf: seq<int>, buf': seq<int>, es: seq<Entry>, tgt: seq<int>, gl: seq<int>, base: int, g: nat)
    requires AllEmitted(buf, es, tgt, gl, base, g) && AllPlaced(es) && g < |es| && !NoPatch(es, tgt, g)
    requires Emitted(buf', es, tgt, gl, base, g, g + 1)
    requires g >= 1 && OneByte(es[g - 1].act)
    requires if ShrunkBy(es, tgt, g, 3) then
               SameFront(buf, buf', Final(es, tgt, g) - 1) && ByteAt(buf', Final(es, tgt, g) - 1, 0xeb)
             else
               g >= 2 && OneByte(es[g - 2].act) && SameFront(buf, buf', Final(es, tgt, g) - 2)
               && if ShortImm(es[g].act) then
                    ByteAt(buf', Final(es, tgt, g) - 2, es[g - 2].act.byte + 2)
                    && ByteAt(buf', Final(es, tgt, g) - 1, LitNow(es, tgt, g - 1, g))
                  else ByteAt(buf', Final(es, tgt, g) - 2, es[g - 1].act.byte - 0x10)
    ensures AllEmitted(buf', es, tgt, gl, base, g + 1)
  {
    hide Final, Slack, Distance, Off, Shrinks;
    var h := g + 1;
    StepSize(es, tgt, g - 1);
    if g >= 2 { StepSize(es, tgt, g - 2); }
    forall j | 0 <= j < h ensures Emitted(buf', es, tgt, gl, base, j, h) {
      if j < g - 2 || (j == g - 2 && ShrunkBy(es, tgt, g, 3)) {
        assert Emitted(buf, es, tgt, gl, base, j, g) && Placed(es, j);
        Closer(es, tgt, j + 1, if j < g - 2 then g - 2 else g - 1);
        EmittedStays(buf, buf', es, tgt, gl, base, j, g);
      } else if j < g {
        PatchedByte(buf', es, tgt, gl, base, j, g);
      }
    }
  }

  /** The plain bytes in front of a short form. */
  lemma PatchedByte(buf: seq<int>, es: seq<Entry>, tgt: seq<int>, gl: seq<int>, base: int, j: nat, g: nat)
    requires Aimed(es, tgt) && g < |es| && j < g && OneByte(es[j].act) && !NoPatch(es, tgt, g)
    requires ShrunkBy(es, tgt, g, 3) ==> j == g - 1 && ByteAt(buf, Final(es, tgt, j), 0xeb)
    requires !ShrunkBy(es, tgt, g, 3) ==> g >= 2 && j >= g - 2 && OneByte(es[g - 1].act)
    requires ShortImm(es[g].act) ==>
      ByteAt(buf, Final(es, tgt, j), if j == g - 2 then es[j].act.byte + 2 else LitNow(es, tgt, j, g))
    requires ShrunkBy(es, tgt, g, 4) && j == g - 2 ==> ByteAt(buf, Final(es, tgt, j), es[g - 1].act.byte - 0x10)
    ensures Emitted(buf, es, tgt, gl, base, j, g + 1)
  {
    hide Final, Slack, Distance, Off;
  }

  // ---- What the third pass knows -----------------------------------------------------------

  /** The code has room for entry g. */
  lemma RoomFor(es: seq<Entry>, tgt: seq<int>, g: nat)
    requires Aimed(es, tgt) && g < |es|
    ensures 0 <= Final(es, tgt, g) <= Final(es, tgt, g + 1) <= Final(es, tgt, |es|)
    ensures !es[g].act.Rel? && !es[g].act.Align? ==> Final(es, tgt, g + 1) == Final(es, tgt, g) + Size(es[g].act)
    ensures es[g].act.Rel? ==>
      Final(es, tgt, g + 1) == Final(es, tgt, g) + 4 - (if Shrinks(es, tgt, g) then Saving(es[g].act.op) else 0)
  {
    StepSize(es, tgt, g);
    Closer(es, tgt, g, g + 1);
    Closer(es, tgt, g + 1, |es|);
  }

  lemma ByteNow(buf: seq<int>, es: seq<Entry>, tgt: seq<int>, gl: seq<int>, base: int, g: nat, cp: int)
    requires Aimed(es, tgt) && g < |es| && OneByte(es[g].act) && cp == Final(es, tgt, g) && ByteAt(buf, cp, es[g].act.byte)
    ensures Emitted(buf, es, tgt, gl, base, g, g + 1)
  {
    hide Final, Shrinks;
  }

  lemma EmitNothing(buf: seq<int>, es: seq<Entry>, tgt: seq<int>, gl: seq<int>, base: int, g: nat)
    requires AllEmitted(buf, es, tgt, gl, base, g) && AllPlaced(es) && g < |es| && (es[g].act.Label? || es[g].act.Stop? || es[g].act.Begin?)
    ensures AllEmitted(buf, es, tgt, gl, base, g + 1) && Final(es, tgt, g + 1) == Final(es, tgt, g)
  {
    StepSize(es, tgt, g);
    EmitPlain(buf, buf, es, tgt, gl, base, g);
  }

  /** The plain bytes in front of entry g are as they were written. */
  lemma OpcodeBytes(buf: seq<int>, es: seq<Entry>, tgt: seq<int>, gl: seq<int>, base: int, g: nat)
    requires AllEmitted(buf, es, tgt, gl, base, g) && AllPlaced(es) && g < |es| && !NoPatch(es, tgt, g)
    ensures var f := Final(es, tgt, g);
      && g >= 1 && OneByte(es[g - 1].act) && f >= 1 && ByteAt(buf, f - 1, es[g - 1].act.byte)
      && LitNow(es, tgt, g - 1, g) == es[g - 1].act.byte
      && (es[g].act.Rel? ==> es[g - 1].act.byte == es[g].act.op)
      && (!ShrunkBy(es, tgt, g, 3) ==> g >= 2 && OneByte(es[g - 2].act) && f >= 2 && ByteAt(buf, f - 2, es[g - 2].act.byte))
  {
    assert Placed(es, g);
    assert Emitted(buf, es, tgt, gl, base, g - 1, g);
    StepSize(es, tgt, g - 1);
    Closer(es, tgt, 0, g - 1);
    if !ShrunkBy(es, tgt, g, 3) {
      assert Emitted(buf, es, tgt, gl, base, g - 2, g);
      StepSize(es, tgt, g - 2);
      Closer(es, tgt, 0, g - 2);
    }
    hide AllEmitted, Final, Shrinks;
  }

  /** The words of entry g after the second pass. */
  lemma EntryThere(al: seq<int>, c: Program, tgt: seq<int>, b: map<int, int>, g: nat)
    requires ProgramOk(al, c) && LinkedTo(c, tgt, b, |c.es|) && g < |c.es|
    ensures Aimed(c.es, tgt) && AtAction(al, c.es[g]) && AllPlaced(c.es)
    ensures var e := c.es[g];
      && (e.act.Imm? ==> e.pos in b && b[e.pos] == e.act.n)
      && (e.act.Space? ==> e.pos in b && b[e.pos] == e.act.count)
      && (e.act.Begin? ==> e.pos in b && b[e.pos] == e.act.start)
  {
    assert SlotAt(c, tgt, b, g, |c.es|);
  }

  lemma ShrinkWord(al: seq<int>, c: Program, tgt: seq<int>, b: map<int, int>, g: nat)
    requires LinkedTo(c, tgt, b, |c.es|) && g < |c.es| && c.es[g].act.Rel?
    ensures var e := c.es[g]; e.pos + 1 in b && b[e.pos + 1] == if Shrinks(c.es, tgt, g) then Saving(e.act.op) else 0
    ensures Aimed(c.es, tgt) && (Shrinks(c.es, tgt, g) <==> ShrunkBy(c.es, tgt, g, 3) || ShrunkBy(c.es, tgt, g, 4))
  {
    assert SlotAt(c, tgt, b, g, |c.es|);
  }
}
