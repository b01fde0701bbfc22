/** What the dump reader makes of a byte string, and that it rebuilds what was written. */
module Undump {
  import opened Uleb
  import opened Values
  import opened Dump

  datatype Fault =
    | BadDump                     // LJ_ERR_BCBAD
    | BadFormat                   // LJ_ERR_BCFMT
    | BadKey                      // a nil or NaN key for a table
    | Foreign                     // a dump in the other byte order, which this model does not read
    | Overrun                     // malformed beyond what is checked: reads past the data, or shifts too far

  datatype Outcome<+T> = Done(value: T) | Failed(fault: Fault) {
    predicate IsFailure() {
      Failed?
    }

    function PropagateFailure<U>(): Outcome<U>
      requires Failed?
    {
      Failed(fault)
    }

    function Extract(): T
      requires Done?
    {
      value
    }
  }

  // ---- Numbers and blocks ------------------------------------------------------------------

  /** A 32-bit number: of at most five bytes. Bits beyond 32 get lost. */
  function ReadUleb(s: seq<byte>): (r: Outcome<(u32, seq<byte>)>)
    ensures r.Done? ==> |r.value.1| < |s|
  {
    var n := Extent(s);
    if n == 0 || n > 5 then Failed(Overrun) else Done((Value(s[..n]) % U32_RANGE, s[n..]))
  }

  /** The top 32 bits of a 33-bit number. */
  function ReadUleb33(s: seq<byte>): Outcome<(u32, seq<byte>)> {
    var n := Extent(s);
    if n == 0 || n > 5 then Failed(Overrun) else Done((Value(s[..n]) / 2 % U32_RANGE, s[n..]))
  }

  function ReadMem(s: seq<byte>, len: nat): Outcome<(seq<byte>, seq<byte>)> {
    if |s| < len then Failed(Overrun) else Done((s[..len], s[len..]))
  }

  lemma UlebBack(v: u32, rest: seq<byte>)
    ensures ReadUleb(Encode(v) + rest) == Done((v, rest))
  {
    hide Encode, Extent, Value;
    EncodeExtent(v, rest);
    EncodeShort(v);
    EncodeValue(v);
    var n := |Encode(v)|;
    assert (Encode(v) + rest)[..n] == Encode(v) && (Encode(v) + rest)[n..] == rest;
  }

  /** Both kinds of number constants come back from their 33-bit codes, with the tag bit. */
  lemma Uleb33Back(lo: u32, tag: nat, rest: seq<byte>)
    requires tag <= 1
    ensures ReadUleb33(Encode(2 * lo + tag) + rest) == Done((lo, rest))
    ensures (Encode(2 * lo + tag) + rest)[0] % 2 == tag
  {
    hide Encode, Extent, Value;
    var v := 2 * lo + tag;
    EncodeExtent(v, rest);
    EncodeShort(v);
    EncodeValue(v);
    FirstBit(v);
    var n := |Encode(v)|;
    assert (Encode(v) + rest)[..n] == Encode(v) && (Encode(v) + rest)[n..] == rest;
    assert (Encode(v) + rest)[0] == Encode(v)[0];
  }

  lemma FirstBit(v: nat)
    ensures Encode(v)[0] % 2 == v % 2
  {}

  lemma MemBack(b: seq<byte>, rest: seq<byte>)
    ensures ReadMem(b + rest, |b|) == Done((b, rest))
  {
    assert (b + rest)[..|b|] == b && (b + rest)[|b|..] == rest;
  }

  function ReadPair(s: seq<byte>): Outcome<((u32, u32), seq<byte>)> {
    var (lo, s1) :- ReadUleb(s);
    var (hi, s2) :- ReadUleb(s1);
    Done(((lo, hi), s2))
  }

  lemma PairBack(lo: u32, hi: u32, rest: seq<byte>)
    ensures ReadPair(Pair(lo, hi) + rest) == Done(((lo, hi), rest))
  {
    assert Pair(lo, hi) + rest == Encode(lo) + (Encode(hi) + rest);
    UlebBack(lo, Encode(hi) + rest);
    UlebBack(hi, rest);
  }

  // ---- Template tables -----------------------------------------------------------------

  function ReadKtabk(dual: bool, s: seq<byte>): Outcome<(TValue, seq<byte>)> {
    var (tp, s1) :- ReadUleb(s);
    if tp >= BCDUMP_KTAB_STR then
      var (chars, s2) :- ReadMem(s1, tp - BCDUMP_KTAB_STR);
      Done((Str(chars), s2))
    else if tp == BCDUMP_KTAB_INT then
      var (k, s2) :- ReadUleb(s1);
      Done((SetInt(dual, I32(k)), s2))
    else if tp == BCDUMP_KTAB_NUM then
      var (n, s2) :- ReadPair(s1);
      Done((Num(n.0, n.1), s2))
    else
      Done((if tp == BCDUMP_KTAB_NIL then Nil else if tp == BCDUMP_KTAB_FALSE then False else True, s1))
  }

  lemma OneByte(tp: nat)
    requires tp < 128
    ensures Encode(tp) == [tp]
  {}

  lemma KtabkBack(dual: bool, o: TValue, narrow: bool, rest: seq<byte>)
    requires ValueOk(dual, o)
    ensures ReadKtabk(dual, KtabkBytes(dual, o, narrow) + rest) == Done((o, rest))
  {
    hide ReadUleb, ReadPair, SetInt, Encode, Pair, Narrow;
    var s := KtabkBytes(dual, o, narrow) + rest;
    match o
    case Str(chars) =>
      assert s == Encode(BCDUMP_KTAB_STR + |chars|) + (chars + rest);
      UlebBack(BCDUMP_KTAB_STR + |chars|, chars + rest);
      MemBack(chars, rest);
    case Int(k) =>
      SetNarrowed(dual, o);
      IntBack(dual, o, k, s, rest);
    case Num(lo, hi) =>
      if narrow && Narrowed(dual, o).Some? {
        SetNarrowed(dual, o);
        IntBack(dual, o, Narrowed(dual, o).value, s, rest);
      } else {
        OneByte(BCDUMP_KTAB_NUM);
        assert s == Encode(BCDUMP_KTAB_NUM) + (Pair(lo, hi) + rest);
        UlebBack(BCDUMP_KTAB_NUM, Pair(lo, hi) + rest);
        PairBack(lo, hi, rest);
      }
    case Nil => OneByte(BCDUMP_KTAB_NIL); UlebBack(BCDUMP_KTAB_NIL, rest);
    case False => OneByte(BCDUMP_KTAB_FALSE); UlebBack(BCDUMP_KTAB_FALSE, rest);
    case True => OneByte(BCDUMP_KTAB_TRUE); UlebBack(BCDUMP_KTAB_TRUE, rest);
  }

  lemma IntBack(dual: bool, o: TValue, k: int, s: seq<byte>, rest: seq<byte>)
    requires IsInt32(k) && SetInt(dual, k) == o && s == [BCDUMP_KTAB_INT] + Encode(U32(k)) + rest
    ensures ReadKtabk(dual, s) == Done((o, rest))
  {
    hide ReadUleb, ReadPair, SetInt, Encode;
    OneByte(BCDUMP_KTAB_INT);
    assert s == Encode(BCDUMP_KTAB_INT) + (Encode(U32(k)) + rest);
    UlebBack(BCDUMP_KTAB_INT, Encode(U32(k)) + rest);
    UlebBack(U32(k), rest);
  }

  /** lj_tab_set, and the assignment to the slot it returns. */
  function SetTab(dual: bool, t: Table, key: TValue, val: TValue): Outcome<Table> {
    if key == Nil || (key.Num? && IsNaN(key.lo, key.hi)) then Failed(BadKey)
    else if InArray(key, |t.arr|) then Done(t.(arr := t.arr[ArrayIndex(key).value := val]))
    else Done(t.(node := SetNode(t.node, Node(Canonical(dual, key), val))))
  }

  function SetNode(node: seq<Node>, n: Node): seq<Node> {
    if node == [] then [n]
    else if node[0].key == n.key then [n] + node[1..]
    else [node[0]] + SetNode(node[1..], n)
  }

  lemma {:induction false} NewNode(node: seq<Node>, n: Node)
    requires forall m <- node :: m.key != n.key
    ensures SetNode(node, n) == node + [n]
  {
    if node == [] {
    } else {
      NewNode(node[1..], n);
      assert node + [n] == [node[0]] + (node[1..] + [n]);
    }
  }

  lemma SetNew(dual: bool, t: Table, n: Node)
    requires KeyOk(dual, n.key) && !InArray(n.key, |t.arr|) && forall m <- t.node :: m.key != n.key
    ensures SetTab(dual, t, n.key, n.val) == Done(t.(node := t.node + [n]))
  {
    NewNode(t.node, n);
  }

  lemma KeyIsOk(dual: bool, o: TValue)
    requires KeyOk(dual, o)
    ensures ValueOk(dual, o)
  {}

  function ReadArray(dual: bool, s: seq<byte>, n: nat): Outcome<(seq<TValue>, seq<byte>)> {
    if n == 0 then Done(([], s))
    else
      var (o, s1) :- ReadKtabk(dual, s);
      var (arr, s2) :- ReadArray(dual, s1, n - 1);
      Done(([o] + arr, s2))
  }

  function ReadHash(dual: bool, s: seq<byte>, n: nat, t: Table): Outcome<(Table, seq<byte>)>
    decreases n
  {
    hide SetTab, ReadKtabk;
    if n == 0 then Done((t, s))
    else
      var (key, s1) :- ReadKtabk(dual, s);
      var (val, s2) :- ReadKtabk(dual, s1);
      var u :- SetTab(dual, t, key, val);
      ReadHash(dual, s2, n - 1, u)
  }

  function ReadKtab(dual: bool, s: seq<byte>): Outcome<(Table, seq<byte>)> {
    var (narray, s1) :- ReadUleb(s);
    var (nhash, s2) :- ReadUleb(s1);
    var (arr, s3) :- ReadArray(dual, s2, narray);
    ReadHash(dual, s3, nhash, Table(arr, []))
  }

  lemma {:induction false} ArrayBack(dual: bool, arr: seq<TValue>, rest: seq<byte>)
    requires forall o <- arr :: ValueOk(dual, o)
    ensures ReadArray(dual, ArrayBytes(dual, arr) + rest, |arr|) == Done((arr, rest))
  {
    hide ReadKtabk, KtabkBytes, ValueOk;
    if arr == [] {
      assert [] + rest == rest;
    } else {
      assert ArrayBytes(dual, arr) + rest == KtabkBytes(dual, arr[0], true) + (ArrayBytes(dual, arr[1..]) + rest);
      KtabkBack(dual, arr[0], true, ArrayBytes(dual, arr[1..]) + rest);
      ArrayBack(dual, arr[1..], rest);
      assert [arr[0]] + arr[1..] == arr;
    }
  }

  /** Nodes whose keys are distinct, canonical, and not indices of the array part. */
  ghost predicate NodesOk(dual: bool, size: nat, nodes: seq<Node>) {
    && (forall n <- nodes :: KeyOk(dual, n.key) && ValueOk(dual, n.val) && !InArray(n.key, size))
    && (forall i, j | 0 <= i < j < |nodes| :: nodes[i].key != nodes[j].key)
  }

  lemma {:induction false} HashBack(dual: bool, nodes: seq<Node>, t: Table, rest: seq<byte>)
    requires NodesOk(dual, |t.arr|, t.node + nodes)
    ensures ReadHash(dual, HashBytes(dual, nodes) + rest, |nodes|, t) == Done((t.(node := t.node + nodes), rest))
    decreases |nodes|
  {
    hide ReadKtabk, KtabkBytes, ValueOk, SetTab, KeyOk, InArray;
    if nodes == [] {
      assert [] + rest == rest && t.node + [] == t.node;
    } else {
      var n, more := nodes[0], HashBytes(dual, nodes[1..]) + rest;
      var s := HashBytes(dual, nodes) + rest;
      assert s == KtabkBytes(dual, n.key, false) + (KtabkBytes(dual, n.val, true) + more);
      assert (t.node + nodes)[|t.node|] == n;
      assert n in t.node + nodes;
      KeyIsOk(dual, n.key);
      KtabkBack(dual, n.key, false, KtabkBytes(dual, n.val, true) + more);
      KtabkBack(dual, n.val, true, more);
      forall m <- t.node ensures m.key != n.key {
        var i :| 0 <= i < |t.node| && t.node[i] == m;
        assert (t.node + nodes)[i] == m;
      }
      var u := t.(node := t.node + [n]);
      SetNew(dual, t, n);
      assert u.node + nodes[1..] == t.node + nodes;
      HashBack(dual, nodes[1..], u, rest);
    }
  }

  lemma {:induction false} UsedOk(dual: bool, t: Table, node: seq<Node>)
    requires TableOk(dual, t) && node <= t.node
    ensures NodesOk(dual, |t.arr|, Used(node))
    decreases |node|
  {
    if node == [] {
    } else {
      UsedOk(dual, t, node[..|node| - 1]);
      var n, older := node[|node| - 1], Used(node[..|node| - 1]);
      if n.val != Nil {
        assert n == t.node[|node| - 1] && n in t.node;
        forall m <- older ensures m.key != n.key {
          var i :| 0 <= i < |node| - 1 && node[i] == m;
          assert t.node[i] == m;
        }
        assert Used(node) == [n] + older;
      } else {
        assert Used(node) == [] + older == older;
      }
    }
  }

  lemma NodesOfLess(dual: bool, size: nat, less: nat, nodes: seq<Node>)
    requires NodesOk(dual, size, nodes) && less <= size
    ensures NodesOk(dual, less, nodes)
  {}

  lemma KtabBack(dual: bool, t: Table, rest: seq<byte>)
    requires TableOk(dual, t)
    ensures ReadKtab(dual, KtabBytes(dual, t) + rest) == Done((Reread(t), rest))
  {
    hide ReadUleb, ReadArray, ReadHash, ArrayBytes, HashBytes, Encode, ValueOk, KeyOk, InArray;
    var arr, nodes := Trim(t.arr), Used(t.node);
    var s := KtabBytes(dual, t) + rest;
    var s3 := HashBytes(dual, nodes) + rest;
    var s2 := ArrayBytes(dual, arr) + s3;
    UsedFewer(t.node);
    assert s == Encode(|arr|) + (Encode(|nodes|) + s2);
    UlebBack(|arr|, Encode(|nodes|) + s2);
    UlebBack(|nodes|, s2);
    assert forall o <- arr :: o in t.arr;
    ArrayBack(dual, arr, s3);
    UsedOk(dual, t, t.node);
    NodesOfLess(dual, |t.arr|, |arr|, nodes);
    assert [] + nodes == nodes;
    HashBack(dual, nodes, Table(arr, []), rest);
  }

  // ---- Prototypes --------------------------------------------------------------------------

  /** A constant. Children are popped off the stack of the prototypes read so far. */
  function ReadKgc(dual: bool, s: seq<byte>, stack: seq<Proto>): Outcome<(KGC, seq<byte>, seq<Proto>)> {
    var (tp, s1) :- ReadUleb(s);
    if tp >= BCDUMP_KGC_STR then
      var (chars, s2) :- ReadMem(s1, tp - BCDUMP_KGC_STR);
      Done((KStr(chars), s2, stack))
    else if tp == BCDUMP_KGC_TAB then
      var (t, s2) :- ReadKtab(dual, s1);
      Done((KTab(t), s2, stack))
    else if tp != BCDUMP_KGC_CHILD then
      var (n, s2) :- ReadPair(s1);
      if tp == BCDUMP_KGC_COMPLEX then
        var (m, s3) :- ReadPair(s2);
        Done((KComplex(n.0, n.1, m.0, m.1), s3, stack))
      else
        Done((if tp == BCDUMP_KGC_I64 then KI64(n.0, n.1) else KU64(n.0, n.1), s2, stack))
    else if stack == [] then Failed(BadDump)
    else Done((KChild(stack[|stack| - 1]), s1, stack[..|stack| - 1]))
  }

  function ReadKgcs(dual: bool, s: seq<byte>, n: nat, stack: seq<Proto>): Outcome<(seq<KGC>, seq<byte>, seq<Proto>)>
    decreases n
  {
    hide ReadKgc;
    if n == 0 then Done(([], s, stack))
    else
      var (c, s1, stack1) :- ReadKgc(dual, s, stack);
      var (kgc, s2, stack2) :- ReadKgcs(dual, s1, n - 1, stack1);
      Done(([c] + kgc, s2, stack2))
  }

  function ReadKnum(dual: bool, s: seq<byte>): Outcome<(TValue, seq<byte>)> {
    if s == [] then Failed(Overrun)
    else
      var (lo, s1) :- ReadUleb33(s);
      if s[0] % 2 == 1 then
        var (hi, s2) :- ReadUleb(s1);
        Done((Num(lo, hi), s2))
      else
        Done((SetInt(dual, I32(lo)), s1))
  }

  function ReadKnums(dual: bool, s: seq<byte>, n: nat): Outcome<(seq<TValue>, seq<byte>)>
    decreases n
  {
    hide ReadKnum;
    if n == 0 then Done(([], s))
    else
      var (o, s1) :- ReadKnum(dual, s);
      var (kn, s2) :- ReadKnums(dual, s1, n - 1);
      Done(([o] + kn, s2))
  }

  lemma KnumBack(dual: bool, o: TValue, rest: seq<byte>)
    requires IsNumber(o) && ConstantOk(dual, o)
    ensures ReadKnum(dual, KnumBytes(dual, o) + rest) == Done((o, rest))
  {
    hide ReadUleb, ReadUleb33, SetInt, Encode, Narrow;
    if Narrowed(dual, o).Some? {
      SetNarrowed(dual, o);
      Uleb33Back(U32(Narrowed(dual, o).value), 0, rest);
    } else {
      assert KnumBytes(dual, o) + rest == Encode(2 * o.lo + 1) + (Encode(o.hi) + rest);
      Uleb33Back(o.lo, 1, Encode(o.hi) + rest);
      UlebBack(o.hi, rest);
    }
  }

  lemma {:induction false} KnumsBack(dual: bool, kn: seq<TValue>, rest: seq<byte>)
    requires forall o <- kn :: IsNumber(o) && ConstantOk(dual, o)
    ensures ReadKnums(dual, KnumsBytes(dual, kn) + rest, |kn|) == Done((kn, rest))
  {
    hide ReadKnum, KnumBytes, ConstantOk;
    if kn == [] {
      assert [] + rest == rest;
    } else {
      assert KnumsBytes(dual, kn) + rest == KnumBytes(dual, kn[0]) + (KnumsBytes(dual, kn[1..]) + rest);
      KnumBack(dual, kn[0], KnumsBytes(dual, kn[1..]) + rest);
      KnumsBack(dual, kn[1..], rest);
      assert [kn[0]] + kn[1..] == kn;
    }
  }

  /** The children of the constants from i on, as they are pushed: the first one is on top. */
  function Pushed(strip: bool, p: Proto, i: nat): seq<Proto>
    requires i <= |p.kgc|
    decreases |p.kgc| - i
  {
    if i == |p.kgc| then []
    else Pushed(strip, p, i + 1) + (if p.kgc[i].KChild? then [Plain(strip, p.kgc[i].proto)] else [])
  }

  lemma KgcBack(dual: bool, strip: bool, c: KGC, rest: seq<byte>, stack: seq<Proto>)
    requires KgcOk(dual, c)
    ensures ReadKgc(dual, KgcBytes(dual, c) + rest, if c.KChild? then stack + [Plain(strip, c.proto)] else stack)
      == Done((PlainKgc(strip, c), rest, stack))
  {
    hide ReadUleb, ReadPair, ReadKtab, KtabBytes, Encode, Pair, TableOk, Reread, Plain;
    var s := KgcBytes(dual, c) + rest;
    match c
    case KStr(chars) =>
      assert s == Encode(BCDUMP_KGC_STR + |chars|) + (chars + rest);
      UlebBack(BCDUMP_KGC_STR + |chars|, chars + rest);
      MemBack(chars, rest);
    case KChild(child) =>
      UlebBack(BCDUMP_KGC_CHILD, rest);
      assert (stack + [Plain(strip, child)])[..|stack|] == stack;
    case KTab(t) =>
      assert s == Encode(BCDUMP_KGC_TAB) + (KtabBytes(dual, t) + rest);
      UlebBack(BCDUMP_KGC_TAB, KtabBytes(dual, t) + rest);
      KtabBack(dual, t, rest);
    case KI64(lo, hi) =>
      assert s == Encode(BCDUMP_KGC_I64) + (Pair(lo, hi) + rest);
      UlebBack(BCDUMP_KGC_I64, Pair(lo, hi) + rest);
      PairBack(lo, hi, rest);
    case KU64(lo, hi) =>
      assert s == Encode(BCDUMP_KGC_U64) + (Pair(lo, hi) + rest);
      UlebBack(BCDUMP_KGC_U64, Pair(lo, hi) + rest);
      PairBack(lo, hi, rest);
    case KComplex(rlo, rhi, ilo, ihi) =>
      var more := Pair(ilo, ihi) + rest;
      assert s == Encode(BCDUMP_KGC_COMPLEX) + (Pair(rlo, rhi) + more);
      UlebBack(BCDUMP_KGC_COMPLEX, Pair(rlo, rhi) + more);
      PairBack(rlo, rhi, more);
      PairBack(ilo, ihi, rest);
  }

  /** Each child lands in its own slot. */
  lemma {:induction false} KgcsBack(dual: bool, strip: bool, p: Proto, i: nat, rest: seq<byte>, stack: seq<Proto>)
    requires i <= |p.kgc| && forall c <- p.kgc :: KgcOk(dual, c)
    ensures ReadKgcs(dual, KgcsBytes(dual, p.kgc[i..]) + rest, |p.kgc| - i, stack + Pushed(strip, p, i))
      == Done((PlainKgcs(strip, p, i), rest, stack))
    decreases |p.kgc| - i
  {
    hide ReadKgc, KgcBytes, KgcOk, Plain;
    if i == |p.kgc| {
      assert [] + rest == rest && stack + [] == stack;
    } else {
      var c, more := p.kgc[i], KgcsBytes(dual, p.kgc[i + 1..]) + rest;
      assert p.kgc[i..][0] == c && p.kgc[i..][1..] == p.kgc[i + 1..];
      assert KgcsBytes(dual, p.kgc[i..]) + rest == KgcBytes(dual, c) + more;
      var below := stack + Pushed(strip, p, i + 1);
      assert stack + Pushed(strip, p, i) == if c.KChild? then below + [Plain(strip, c.proto)] else below;
      KgcBack(dual, strip, c, more, below);
      KgcsBack(dual, strip, p, i + 1, rest, stack);
    }
  }

  // ---- Whole dumps -------------------------------------------------------------------------

  /** Sizes at the head of a prototype. */
  datatype Head = Head(flags: byte, numparams: byte, framesize: byte, sizeuv: byte, sizekgc: u32, sizekn: u32, nbc: u32,
                       sizedbg: u32, firstline: u32, numline: u32)

  function ReadFour(s: seq<byte>): Outcome<(seq<byte>, seq<byte>)> {
    ReadMem(s, 4)
  }

  /** The length of the debug info and its lines. */
  function ReadDebug(strip: bool, s: seq<byte>): Outcome<((u32, u32, u32), seq<byte>)> {
    if strip then Done(((0, 0, 0), s))
    else
      var (sizedbg, s1) :- ReadUleb(s);
      if sizedbg == 0 then Done(((0, 0, 0), s1))
      else
        var (lines, s2) :- ReadPair(s1);
        Done(((sizedbg, lines.0, lines.1), s2))
  }

  function ReadHead(strip: bool, s: seq<byte>): Outcome<(Head, seq<byte>)> {
    var (b, s0) :- ReadFour(s);
    var (sizekgc, s1) :- ReadUleb(s0);
    var (sizekn, s2) :- ReadUleb(s1);
    var (nbc, s3) :- ReadUleb(s2);
    var (dbg, s4) :- ReadDebug(strip, s3);
    Done((Head(b[0], b[1], b[2], b[3], sizekgc, sizekn, nbc, dbg.0, dbg.1, dbg.2), s4))
  }

  lemma DebugBack(strip: bool, p: Proto, rest: seq<byte>)
    requires |DebugBytes(strip, p)| < U32_RANGE
    ensures ReadDebug(strip, DebugHead(strip, p) + rest) ==
      Done(((|DebugBytes(strip, p)|, Plain(strip, p).firstline, Plain(strip, p).numline), rest))
  {
    hide ReadUleb, ReadPair, Encode, PlainKgcs;
    if strip {
      assert [] + rest == rest;
    } else if p.dbg == [] {
      UlebBack(0, rest);
    } else {
      assert DebugHead(strip, p) + rest == Encode(|p.dbg|) + (Pair(p.firstline, p.numline) + rest);
      UlebBack(|p.dbg|, Pair(p.firstline, p.numline) + rest);
      PairBack(p.firstline, p.numline, rest);
    }
  }

  lemma HeadBack(strip: bool, p: Proto, rest: seq<byte>)
    requires |p.uv| / 2 < 256 && |p.kgc| < U32_RANGE && |p.kn| < U32_RANGE && |p.bc| / 4 < U32_RANGE && |DebugBytes(strip, p)| < U32_RANGE
    ensures ReadHead(strip, PHead(strip, p) + rest) ==
      Done((Head(p.flags % 8, p.numparams, p.framesize, |p.uv| / 2, |p.kgc|, |p.kn|, |p.bc| / 4,
                 |DebugBytes(strip, p)|, Plain(strip, p).firstline, Plain(strip, p).numline), rest))
  {
    hide ReadUleb, ReadMem, ReadDebug, Encode, Plain, DebugBytes, DebugHead;
    var b := [p.flags % 8, p.numparams, p.framesize, |p.uv| / 2];
    var s3 := DebugHead(strip, p) + rest;
    var s2 := Encode(|p.bc| / 4) + s3;
    var s1 := Encode(|p.kn|) + s2;
    var s0 := Encode(|p.kgc|) + s1;
    assert PHead(strip, p) + rest == b + s0;
    MemBack(b, s0);
    UlebBack(|p.kgc|, s1);
    UlebBack(|p.kn|, s2);
    UlebBack(|p.bc| / 4, s3);
    DebugBack(strip, p, rest);
  }

  /** What follows the head of a prototype. */
  function ReadBody(dual: bool, h: Head, s: seq<byte>, stack: seq<Proto>): Outcome<(Proto, seq<byte>, seq<Proto>)> {
    hide ReadMem, ReadKgcs, ReadKnums;
    var (bc, s1) :- ReadMem(s, 4 * h.nbc % U32_RANGE);
    var (uv, s2) :- ReadMem(s1, 2 * h.sizeuv);
    var (kgc, s3, stack1) :- ReadKgcs(dual, s2, h.sizekgc, stack);
    var (kn, s4) :- ReadKnums(dual, s3, h.sizekn);
    var (dbg, s5) :- ReadMem(s4, h.sizedbg);
    Done((Proto(h.flags, h.numparams, h.framesize, bc, uv, kgc, kn, h.firstline, h.numline, dbg), s5, stack1))
  }

  lemma BodyBack(dual: bool, strip: bool, p: Proto, h: Head, rest: seq<byte>, stack: seq<Proto>)
    requires |p.bc| % 4 == 0 && |p.uv| % 2 == 0 && |p.uv| / 2 < 256 && |p.bc| < U32_RANGE
    requires |p.kgc| < U32_RANGE && |p.kn| < U32_RANGE && |DebugBytes(strip, p)| < U32_RANGE
    requires (forall o <- p.kn :: IsNumber(o) && ConstantOk(dual, o)) && forall c <- p.kgc :: KgcOk(dual, c)
    requires h == Head(p.flags % 8, p.numparams, p.framesize, |p.uv| / 2, |p.kgc|, |p.kn|, |p.bc| / 4,
                       |DebugBytes(strip, p)|, Plain(strip, p).firstline, Plain(strip, p).numline)
    ensures ReadBody(dual, h, p.bc + p.uv + KgcsBytes(dual, p.kgc) + KnumsBytes(dual, p.kn) + DebugBytes(strip, p) + rest,
                     stack + Pushed(strip, p, 0)) == Done((Plain(strip, p), rest, stack))
  {
    hide ReadMem, ReadKgcs, ReadKnums, KgcsBytes, KnumsBytes, KgcOk, ConstantOk, IsNumber, PlainKgcs;
    var s4 := DebugBytes(strip, p) + rest;
    var s3 := KnumsBytes(dual, p.kn) + s4;
    var s2 := KgcsBytes(dual, p.kgc) + s3;
    var s1 := p.uv + s2;
    assert p.bc + p.uv + KgcsBytes(dual, p.kgc) + KnumsBytes(dual, p.kn) + DebugBytes(strip, p) + rest == p.bc + s1;
    assert 4 * (|p.bc| / 4) == |p.bc| && 2 * (|p.uv| / 2) == |p.uv|;
    MemBack(p.bc, s1);
    MemBack(p.uv, s2);
    assert p.kgc[0..] == p.kgc;
    KgcsBack(dual, strip, p, 0, s3, stack);
    KnumsBack(dual, p.kn, s4);
    MemBack(DebugBytes(strip, p), rest);
    PlainBody(strip, p);
  }

  lemma PlainBody(strip: bool, p: Proto)
    ensures Plain(strip, p).dbg == DebugBytes(strip, p) && Plain(strip, p).kn == p.kn && Plain(strip, p).bc == p.bc
    ensures Plain(strip, p).kgc == PlainKgcs(strip, p, 0)
  {}

  /** The next prototype, or the end of the dump. */
  datatype Next = End(rest: seq<byte>) | One(proto: Proto, rest: seq<byte>, stack: seq<Proto>)

  function ReadProto(dual: bool, strip: bool, s: seq<byte>, stack: seq<Proto>): (r: Outcome<Next>)
    ensures r.Done? && r.value.One? ==> |r.value.rest| < |s|
  {
    hide ReadHead, ReadBody, ReadUleb;
    if s != [] && s[0] == 0 then Done(End(s[1..]))
    else
      var (len, s1) :- ReadUleb(s);
      if len == 0 then Done(End(s1))
      else if |s1| < len then Failed(BadDump)
      else
        var (h, s2) :- ReadHead(strip, s1);
        var (p, s3, stack1) :- ReadBody(dual, h, s2, stack);
        if len != |s1| - |s3| then Failed(BadDump) else Done(One(p, s3, stack1))
  }

  /** All prototypes up to the end of the dump, pushed onto the stack. */
  function ReadProtos(dual: bool, strip: bool, s: seq<byte>, stack: seq<Proto>): Outcome<(seq<byte>, seq<Proto>)>
    decreases |s|
  {
    hide ReadProto;
    var next :- ReadProto(dual, strip, s, stack);
    match next
    case End(rest) => Done((rest, stack))
    case One(p, rest, stack1) => ReadProtos(dual, strip, rest, stack1 + [p])
  }

  lemma ProtoBack(dual: bool, strip: bool, p: Proto, rest: seq<byte>, stack: seq<Proto>)
    requires ProtoOk(dual, strip, p)
    ensures ReadProto(dual, strip, Framed(PData(dual, strip, p)) + rest, stack + Pushed(strip, p, 0)) == Done(One(Plain(strip, p), rest, stack))
  {
    hide ReadHead, ReadBody, ReadUleb, PHead, KgcsBytes, KnumsBytes, DebugBytes, Plain, Encode, KgcOk, ConstantOk, IsNumber;
    var data := PData(dual, strip, p);
    var s := Framed(data) + rest;
    var body := p.bc + p.uv + KgcsBytes(dual, p.kgc) + KnumsBytes(dual, p.kn) + DebugBytes(strip, p) + rest;
    SizesFit(dual, strip, p);
    assert s == Encode(|data|) + (data + rest);
    UlebBack(|data|, data + rest);
    NotZero(|data|, data + rest);
    assert data + rest == PHead(strip, p) + body;
    HeadBack(strip, p, body);
    BodyBack(dual, strip, p, Head(p.flags % 8, p.numparams, p.framesize, |p.uv| / 2, |p.kgc|, |p.kn|, |p.bc| / 4,
                                  |DebugBytes(strip, p)|, Plain(strip, p).firstline, Plain(strip, p).numline), rest, stack);
  }

  lemma NotZero(v: nat, rest: seq<byte>)
    requires v > 0
    ensures (Encode(v) + rest)[0] != 0
  {}

  /** Reading what was written for a prototype, children and all, pushes it and nothing else. */
  lemma {:induction false} TreeBack(dual: bool, strip: bool, p: Proto, rest: seq<byte>, stack: seq<Proto>)
    requires ProtoOk(dual, strip, p)
    ensures ReadProtos(dual, strip, ProtoBytes(dual, strip, p) + rest, stack) == ReadProtos(dual, strip, rest, stack + [Plain(strip, p)])
    decreases p, |p.kgc| + 1
  {
    hide ReadProto, ProtoOk, Plain, PData, Framed;
    SizesFit(dual, strip, p);
    var own := Framed(PData(dual, strip, p)) + rest;
    assert ProtoBytes(dual, strip, p) + rest == ChildrenBytes(dual, strip, p, 0) + own;
    ChildrenBack(dual, strip, p, 0, own, stack);
    ProtoBack(dual, strip, p, rest, stack);
  }

  lemma {:induction false} ChildrenBack(dual: bool, strip: bool, p: Proto, i: nat, rest: seq<byte>, stack: seq<Proto>)
    requires ProtoOk(dual, strip, p) && i <= |p.kgc|
    ensures ReadProtos(dual, strip, ChildrenBytes(dual, strip, p, i) + rest, stack) == ReadProtos(dual, strip, rest, stack + Pushed(strip, p, i))
    decreases p, |p.kgc| - i
  {
    hide ReadProtos, ProtoOk, Plain, PData, Framed, ProtoBytes;
    if i == |p.kgc| {
      assert [] + rest == rest && stack + [] == stack;
    } else {
      var c := p.kgc[i];
      if c.KChild? {
        ChildFits(dual, strip, p, i);
        var own := ProtoBytes(dual, strip, c.proto) + rest;
        assert ChildrenBytes(dual, strip, p, i) + rest == ChildrenBytes(dual, strip, p, i + 1) + own;
        ChildrenBack(dual, strip, p, i + 1, own, stack);
        var below := stack + Pushed(strip, p, i + 1);
        assert stack + Pushed(strip, p, i) == below + [Plain(strip, c.proto)];
        TreeBack(dual, strip, c.proto, rest, below);
      } else {
        assert ChildrenBytes(dual, strip, p, i) == ChildrenBytes(dual, strip, p, i + 1);
        assert stack + Pushed(strip, p, i) == stack + Pushed(strip, p, i + 1);
        ChildrenBack(dual, strip, p, i + 1, rest, stack);
      }
    }
  }

  /** bcread_header, after the first byte: whether debug info was stripped, and the chunk name. */
  function ReadHeader(s: seq<byte>, chunkarg: seq<byte>): Outcome<(bool, seq<byte>, seq<byte>)> {
    var (b, s1) :- ReadMem(s, 3);
    if b[0] != BCDUMP_HEAD2 || b[1] != BCDUMP_HEAD3 || b[2] != BCDUMP_VERSION then Failed(BadFormat)
    else
      var (flags, s2) :- ReadUleb(s1);
      if flags >= 2 * BCDUMP_F_FFI then Failed(BadFormat)
      else if flags % 2 == BCDUMP_F_BE then Failed(Foreign)
      else if flags / BCDUMP_F_STRIP % 2 == 1 then Done((true, chunkarg, s2))
      else
        var (len, s3) :- ReadUleb(s2);
        if |s3| < len then Failed(BadDump) else Done((false, s3[..len], s3[len..]))
  }

  /** lj_bcread: the prototype of a dump, after its first byte, and its chunk name. */
  function ReadDump(dual: bool, s: seq<byte>, chunkarg: seq<byte>): Outcome<(Proto, seq<byte>)> {
    var (strip, name, s1) :- ReadHeader(s, chunkarg);
    var (rest, stack) :- ReadProtos(dual, strip, s1, []);
    if rest != [] || |stack| != 1 then Failed(BadDump) else Done((stack[0], name))
  }

  lemma HeaderBack(strip: bool, p: Proto, name: seq<byte>, chunkarg: seq<byte>, rest: seq<byte>)
    requires |name| <= LJ_MAX_MEM
    ensures ReadHeader((Header(strip, p, name) + rest)[1..], chunkarg) == Done((strip, if strip then chunkarg else name, rest))
  {
    hide ReadUleb, Encode;
    var flags := HeaderFlags(strip, p);
    var s2 := (if strip then [] else Encode(|name|) + name) + rest;
    var s := (Header(strip, p, name) + rest)[1..];
    OneByte(flags);
    var b := [BCDUMP_HEAD2, BCDUMP_HEAD3, BCDUMP_VERSION];
    assert s == b + (Encode(flags) + s2);
    MemBack(b, Encode(flags) + s2);
    UlebBack(flags, s2);
    if strip {
      assert s2 == rest;
    } else {
      assert s2 == Encode(|name|) + (name + rest);
      UlebBack(|name|, name + rest);
      assert (name + rest)[..|name|] == name && (name + rest)[|name|..] == rest;
    }
  }

  /** The round trip: reading a dump gives the prototype that was dumped. */
  lemma DumpBack(dual: bool, strip: bool, p: Proto, name: seq<byte>, chunkarg: seq<byte>)
    requires ProtoOk(dual, strip, p) && |name| <= LJ_MAX_MEM
    ensures ReadDump(dual, DumpBytes(dual, strip, p, name)[1..], chunkarg) == Done((Plain(strip, p), if strip then chunkarg else name))
  {
    hide ReadHeader, ProtoBytes, Plain, ReadProtos, Header;
    var s := ProtoBytes(dual, strip, p) + [0];
    assert DumpBytes(dual, strip, p, name) == Header(strip, p, name) + s;
    HeaderBack(strip, p, name, chunkarg, s);
    TreeBack(dual, strip, p, [0], []);
    assert [] + [Plain(strip, p)] == [Plain(strip, p)];
    EndOfDump(dual, strip, [Plain(strip, p)]);
  }

  lemma EndOfDump(dual: bool, strip: bool, stack: seq<Proto>)
    ensures ReadProtos(dual, strip, [0], stack) == Done(([], stack))
  {
    assert ReadProto(dual, strip, [0], stack) == Done(End([]));
  }
}
