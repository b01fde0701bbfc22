/** The bytes of one dump, written out. */
module DumpExample {
  import opened Powers
  import opened Uleb
  import opened Values
  import opened Dump

  /** Two instructions, one upvalue, a table {[1] = true, a = false}, a 64-bit integer, a string, and the numbers 1 and 0.5. */
  function Example(): Proto {
    Proto(2, 1, 3, [41, 1, 0, 0, 76, 1, 2, 0], [0, 192],
          [KTab(Table([Nil, True], [Node(Str([97]), False), Node(Nil, Nil)])), KI64(1, 0), KStr([104, 105])],
          [Num(0, 0x3ff0_0000), Num(0, 0x3fe0_0000)], 0, 0, [])
  }

  lemma ExampleTable()
    ensures KtabBytes(false, Example().kgc[0].tab) == [2, 1, 0, 2, 6, 97, 1]
  {
    var t := Example().kgc[0].tab;
    assert Trim(t.arr) == t.arr;
    assert t.node[..1] == [t.node[0]] && t.node[..1][..0] == [];
    assert Used(t.node) == [t.node[0]];
    assert ArrayBytes(false, t.arr) == [0, 2] by {
      assert t.arr[1..] == [True] && t.arr[1..][1..] == [];
    }
    assert [t.node[0]][1..] == [];
    assert HashBytes(false, [t.node[0]]) == [6, 97, 1];
  }

  lemma ExampleConstants()
    ensures KgcsBytes(false, Example().kgc) == [1, 2, 1, 0, 2, 6, 97, 1] + [2, 1, 0] + [7, 104, 105]
  {
    hide KtabBytes, Encode;
    var kgc := Example().kgc;
    ExampleTable();
    assert kgc[1..] == [kgc[1], kgc[2]] && kgc[1..][1..] == [kgc[2]] && kgc[1..][1..][1..] == [];
    SmallCode(0);
    SmallCode(1);
    SmallCode(2);
    SmallCode(7);
    assert KgcBytes(false, kgc[0]) == [1, 2, 1, 0, 2, 6, 97, 1];
    assert KgcBytes(false, kgc[1]) == [2, 1, 0];
    assert KgcBytes(false, kgc[2]) == [7, 104, 105];
    assert KgcsBytes(false, kgc[1..][1..]) == [7, 104, 105];
  }

  lemma OneAndHalf()
    ensures Narrow(0, 0x3ff0_0000) == Some(1) && Narrow(0, 0x3fe0_0000) == None
  {
    NoBits();
    hide Pow2;
  }

  lemma NoBits()
    ensures Pow2(0) == 1 && 0 % Pow2(52) == 0 && 0 / Pow2(52) == 0
  {
    hide Pow2;
    SmallPower();
    Multiple(0, Pow2(52));
  }

  lemma SmallPower()
    ensures Pow2(0) == 1
  {}

  lemma OneWord()
    ensures U32(1) == 1
  {}

  lemma SmallCode(n: nat)
    requires n < 128
    ensures Encode(n) == [n]
  {}

  lemma HighWord()
    ensures Encode(0x3fe0_0000) == [128, 128, 128, 255, 3]
  {
    assert Encode(3) == [3] && Encode(511) == [255, 3] && Encode(65408) == [128, 255, 3];
    assert Encode(8372224) == [128, 128, 255, 3];
  }

  lemma ExampleNumbers()
    ensures (forall o <- Example().kn :: IsNumber(o)) && KnumsBytes(false, Example().kn) == [2, 1, 128, 128, 128, 255, 3]
  {
    hide Narrow, Encode, U32;
    var kn := Example().kn;
    assert kn[1..] == [kn[1]] && kn[1..][1..] == [];
    OneAndHalf();
    HighWord();
    SmallCode(1);
    SmallCode(2);
    assert U32(1) == 1 by { OneWord(); }
    assert KnumBytes(false, kn[0]) == [2] && KnumBytes(false, kn[1]) == [1, 128, 128, 128, 255, 3];
    assert KnumsBytes(false, kn[1..]) == [1, 128, 128, 128, 255, 3];
  }

  lemma ExampleData()
    ensures (forall o <- Example().kn :: IsNumber(o))
    ensures PData(false, true, Example()) == [2, 1, 3, 1, 3, 2, 2] + [41, 1, 0, 0, 76, 1, 2, 0] + [0, 192]
      + [1, 2, 1, 0, 2, 6, 97, 1] + [2, 1, 0] + [7, 104, 105] + [2, 1, 128, 128, 128, 255, 3]
    ensures |PData(false, true, Example())| == 38
  {
    ExampleConstants();
    ExampleNumbers();
    hide KgcsBytes, KnumsBytes, KgcBytes;
    assert PHead(true, Example()) == [2, 1, 3, 1, 3, 2, 2];
  }

  lemma ExampleTableOk()
    ensures TableOk(false, Example().kgc[0].tab)
  {
    hide Narrow;
  }

  lemma ExampleNumbersOk()
    ensures forall o <- Example().kn :: IsNumber(o) && ConstantOk(false, o)
  {}

  lemma ExampleOk()
    ensures ProtoOk(false, true, Example())
  {
    hide KgcsBytes, KnumsBytes, Narrow, PData, TableOk, ConstantOk, Encode;
    ExampleData();
    ExampleTableOk();
    ExampleNumbersOk();
    var kgc := Example().kgc;
    assert forall c <- kgc :: c == kgc[0] || c == kgc[1] || c == kgc[2];
  }

  /** The dump without debug info. */
  lemma ExampleBytes()
    ensures ProtoOk(false, true, Example())
    ensures DumpBytes(false, true, Example(), []) ==
      [0x1b, 0x4c, 0x4a, 1, 2, 38] + [2, 1, 3, 1, 3, 2, 2] + [41, 1, 0, 0, 76, 1, 2, 0] + [0, 192]
      + [1, 2, 1, 0, 2, 6, 97, 1] + [2, 1, 0] + [7, 104, 105] + [2, 1, 128, 128, 128, 255, 3] + [0]
  {
    hide PData, ProtoOk, Encode;
    ExampleOk();
    ExampleData();
    SmallCode(38);
    var p := Example();
    assert ChildrenBytes(false, true, p, 3) == [];
    assert ChildrenBytes(false, true, p, 1) == [];
    assert ChildrenBytes(false, true, p, 0) == [];
    assert Header(true, p, []) == [0x1b, 0x4c, 0x4a, 1, 2];
  }

  /** With debug info, and the name of the chunk in the header. */
  function Debugged(): Proto {
    Proto(0, 0, 4, [71, 0, 1, 0], [], [], [], 7, 9, [1, 2, 3])
  }

  lemma DebuggedBytes()
    ensures ProtoOk(false, false, Debugged())
    ensures DumpBytes(false, false, Debugged(), [64, 120]) ==
      [0x1b, 0x4c, 0x4a, 1, 0, 2, 64, 120, 17] + [0, 0, 4, 0, 0, 0, 1] + [3, 7, 9] + [71, 0, 1, 0] + [1, 2, 3] + [0]
  {
    hide Encode;
    SmallCode(0);
    SmallCode(1);
    SmallCode(2);
    SmallCode(3);
    SmallCode(7);
    SmallCode(9);
    SmallCode(17);
    var p := Debugged();
    assert PHead(false, p) == [0, 0, 4, 0, 0, 0, 1] + [3, 7, 9];
    assert |PData(false, false, p)| == 17;
    assert ChildrenBytes(false, false, p, 0) == [];
  }

  function Leaf(framesize: byte): Proto {
    Proto(0, 0, framesize, [], [], [], [], 0, 0, [])
  }

  /** A prototype with two children. */
  function Nested(): Proto {
    Proto(1, 0, 0, [], [], [KChild(Leaf(5)), KChild(Leaf(6))], [], 0, 0, [])
  }

  lemma LeafBytes(framesize: byte)
    ensures ProtoOk(false, true, Leaf(framesize)) && ProtoBytes(false, true, Leaf(framesize)) == [7, 0, 0, framesize, 0, 0, 0, 0]
  {
    hide Encode;
    SmallCode(0);
    SmallCode(7);
    var p := Leaf(framesize);
    assert PHead(true, p) == [0, 0, framesize, 0, 0, 0, 0];
    assert ChildrenBytes(false, true, p, 0) == [];
  }

  lemma NestedData()
    ensures PData(false, true, Nested()) == [1, 0, 0, 0, 2, 0, 0] + [0, 0]
  {
    hide Encode;
    SmallCode(0);
    SmallCode(2);
    var p := Nested();
    assert p.kgc[1..] == [p.kgc[1]] && p.kgc[1..][1..] == [];
    assert KgcsBytes(false, p.kgc) == [0, 0];
  }

  lemma NestedOk()
    ensures ProtoOk(false, true, Nested())
  {
    hide PData;
    NestedData();
    LeafBytes(5);
    LeafBytes(6);
    var kgc := Nested().kgc;
    assert forall c <- kgc :: c == kgc[0] || c == kgc[1];
  }

  /** The last child comes first, and the parent at the end. */
  lemma NestedBytes()
    ensures ProtoOk(false, true, Nested())
    ensures ProtoBytes(false, true, Nested()) == [7, 0, 0, 6, 0, 0, 0, 0] + [7, 0, 0, 5, 0, 0, 0, 0] + [9, 1, 0, 0, 0, 2, 0, 0, 0, 0]
  {
    hide Encode, PData, ProtoOk;
    NestedOk();
    NestedData();
    SmallCode(9);
    LeafBytes(5);
    LeafBytes(6);
    var p := Nested();
    assert ChildrenBytes(false, true, p, 2) == [];
    assert ChildrenBytes(false, true, p, 1) == [7, 0, 0, 6, 0, 0, 0, 0];
  }
}
