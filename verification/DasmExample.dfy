/** An action list, the entries it leads to, and the bytes of the code, written out. */
module DasmExample {
  import opened Layout
  import opened Buffers
  import opened Put
  import opened Encoder
  import opened Emit

  /** mov eax, imm32; jmp =>pc; mov ax, imm16; =>pc */
  const Actions: seq<int> := [0xb8, 237, 252, 0xe9, 245, 0x66, 0xb8, 236, 249, 255]

  const Arguments: seq<int> := [0x12345678, 0, 0x1234, 0]

  function Entries(): seq<Entry> {
    [Entry(0, 0, Begin(0)), Entry(0, 1, Lit(0xb8)), Entry(1, 1, Imm(237, 0x12345678)), Entry(2, 2, Esc(0xe9)), Entry(4, 2, Rel(true, 0xe9, 0)),
     Entry(5, 4, Lit(0x66)), Entry(6, 4, Lit(0xb8)), Entry(7, 4, Imm(236, 0x1234)), Entry(8, 5, Label(true, 0)), Entry(9, 6, Stop(false))]
  }

  /** Entry k of the example, with those behind it. */
  lemma OneBefore(p: nat, a: nat, pos: int, run: nat, k: nat)
    requires 1 <= k < |Entries()| && Legal(Actions, p, Arguments, a) && Entries()[k] == Entry(p, pos, ActionAt(Actions, p, Arguments, a))
    requires NeedsRun(Entries()[k].act, run) && (Entries()[k].act.Rel? ==> EndsIn(Actions, p, Entries()[k].act.op))
    requires Entries()[k].act.Stop? ==> k == |Entries()| - 1
    requires var e := Entries()[k].act;
      e.Stop? || (WellFormed(Actions, p + Len(e), Arguments, a + Args(e), RunAfter(e, run))
                  && Parsed(Actions, p + Len(e), Arguments, a + Args(e), pos + Slots(e), RunAfter(e, run)) == Entries()[k + 1..])
    ensures WellFormed(Actions, p, Arguments, a, run) && Parsed(Actions, p, Arguments, a, pos, run) == Entries()[k..]
  {
    hide Entries, ActionAt, Legal, NeedsRun, EndsIn;
  }

  lemma ExampleEnd()
    ensures WellFormed(Actions, 5, Arguments, 2, 0) && Parsed(Actions, 5, Arguments, 2, 4, 0) == Entries()[5..]
  {
    hide WellFormed, Parsed;
    OneBefore(9, 4, 6, 0, 9);
    OneBefore(8, 3, 5, 0, 8);
    OneBefore(7, 2, 4, 2, 7);
    OneBefore(6, 2, 4, 1, 6);
    OneBefore(5, 2, 4, 0, 5);
  }

  lemma ExampleStored()
    ensures WellFormed(Actions, 0, Arguments, 0, 0) && Stored(Actions, 0, Arguments, 0) == Entries()
  {
    hide WellFormed, Parsed;
    ExampleEnd();
    OneBefore(4, 1, 2, 1, 4);
    OneBefore(2, 1, 2, 0, 3);
    OneBefore(1, 0, 1, 1, 2);
    OneBefore(0, 0, 1, 0, 1);
  }

  /** The jump leads to the label. */
  const Targets: seq<int> := [-1, -1, -1, -1, 8, -1, -1, -1, -1, -1]

  lemma ExampleOffsets()
    ensures Aimed(Entries(), Targets)
    ensures Off(Entries(), 1) == 0 && Off(Entries(), 2) == 1 && Off(Entries(), 3) == 5 && Off(Entries(), 4) == 6 && Off(Entries(), 5) == 10
    ensures Off(Entries(), 6) == 11 && Off(Entries(), 7) == 12 && Off(Entries(), 8) == Off(Entries(), 9) == Off(Entries(), 10) == 14
  {
    var es := Entries();
    assert Off(es, 1) == 0 && Off(es, 2) == 1;
    assert Off(es, 3) == 5 && Off(es, 4) == 6;
    assert Off(es, 5) == 10 && Off(es, 6) == 11;
    assert Off(es, 7) == 12 && Off(es, 8) == 14;
  }

  lemma ExampleFinal()
    ensures Aimed(Entries(), Targets) && Shrinks(Entries(), Targets, 4)
    ensures Final(Entries(), Targets, 1) == 0 && Final(Entries(), Targets, 2) == 1 && Final(Entries(), Targets, 3) == 5 && Final(Entries(), Targets, 4) == 6
    ensures Final(Entries(), Targets, 5) == 7 && Final(Entries(), Targets, 6) == 8 && Final(Entries(), Targets, 7) == 9
    ensures Final(Entries(), Targets, 8) == Final(Entries(), Targets, 10) == 11
  {
    ExampleOffsets();
    hide Off;
    var es, tgt := Entries(), Targets;
    assert Slack(es, tgt, 1) == 0 && Slack(es, tgt, 2) == 0;
    assert Slack(es, tgt, 3) == 0 && Slack(es, tgt, 4) == 0;
    assert Slack(es, tgt, 5) == -3 && Slack(es, tgt, 6) == -3;
    assert Slack(es, tgt, 7) == -3 && Slack(es, tgt, 8) == -3;
    assert Slack(es, tgt, 9) == -3;
  }

  /** The code: the jump has its short form, over the four bytes in front of the label. */
  lemma ExampleCode(buf: seq<int>, base: int)
    requires AllEmitted(buf, Entries(), Targets, [], base, 10) && |buf| == 11
    ensures buf == [0xb8, 0x78, 0x56, 0x34, 0x12, 0xeb, 0x04, 0x66, 0xb8, 0x34, 0x12]
  {
    ExampleFinal();
    hide Final, Shrinks;
    var es, tgt := Entries(), Targets;
    assert Emitted(buf, es, tgt, [], base, 1, 10) && Emitted(buf, es, tgt, [], base, 2, 10) && Emitted(buf, es, tgt, [], base, 3, 10);
    assert Emitted(buf, es, tgt, [], base, 4, 10) && Emitted(buf, es, tgt, [], base, 5, 10) && Emitted(buf, es, tgt, [], base, 6, 10);
    assert Emitted(buf, es, tgt, [], base, 7, 10);
  }
}
