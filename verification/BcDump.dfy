/** Prototypes, and the bytes of their dump (the grammar at the top of lj_bcdump.h). */
module Dump {
  import opened Uleb
  import opened Values

  const BCDUMP_HEAD1: byte := 0x1b
  const BCDUMP_HEAD2: byte := 0x4c
  const BCDUMP_HEAD3: byte := 0x4a
  const BCDUMP_VERSION: byte := 1
  const BCDUMP_F_BE: byte := 1
  const BCDUMP_F_STRIP: byte := 2
  const BCDUMP_F_FFI: byte := 4

  const BCDUMP_KGC_CHILD: nat := 0
  const BCDUMP_KGC_TAB: nat := 1
  const BCDUMP_KGC_I64: nat := 2
  const BCDUMP_KGC_U64: nat := 3
  const BCDUMP_KGC_COMPLEX: nat := 4
  const BCDUMP_KGC_STR: nat := 5

  const BCDUMP_KTAB_NIL: nat := 0
  const BCDUMP_KTAB_FALSE: nat := 1
  const BCDUMP_KTAB_TRUE: nat := 2
  const BCDUMP_KTAB_INT: nat := 3
  const BCDUMP_KTAB_NUM: nat := 4
  const BCDUMP_KTAB_STR: nat := 5

  const PROTO_FFI: nat := 4

  const LJ_MAX_MEM: nat := 0x7fff_ff00

  datatype Node = Node(key: TValue, val: TValue)

  /** A template table: its array part, from index 0, and its hash part, by position. */
  datatype Table = Table(arr: seq<TValue>, node: seq<Node>)

  /** The GC constants of a prototype. 64-bit integers and complex numbers are words. */
  datatype KGC =
    | KStr(chars: seq<byte>)
    | KChild(proto: Proto)
    | KTab(tab: Table)
    | KI64(lo: u32, hi: u32)
    | KU64(lo: u32, hi: u32)
    | KComplex(rlo: u32, rhi: u32, ilo: u32, ihi: u32)

  /** A prototype. bc has its instructions without the header, four bytes each, and uv its upvalues,
      two bytes each. dbg is its debug info, if any. */
  datatype Proto = Proto(
    flags: byte, numparams: byte, framesize: byte, bc: seq<byte>, uv: seq<byte>, kgc: seq<KGC>, kn: seq<TValue>,
    firstline: u32, numline: u32, dbg: seq<byte>)

  // ---- What is written ----------------------------------------------------------------------

  function Pair(lo: u32, hi: u32): seq<byte> {
    Encode(lo) + Encode(hi)
  }

  function KtabkBytes(dual: bool, o: TValue, narrow: bool): seq<byte> {
    match o
    case Str(chars) => Encode(BCDUMP_KTAB_STR + |chars|) + chars
    case Int(k) => [BCDUMP_KTAB_INT] + Encode(U32(k))
    case Num(lo, hi) =>
      if narrow && Narrowed(dual, o).Some? then [BCDUMP_KTAB_INT] + Encode(U32(Narrowed(dual, o).value))
      else [BCDUMP_KTAB_NUM] + Pair(lo, hi)
    case Nil => [BCDUMP_KTAB_NIL]
    case False => [BCDUMP_KTAB_FALSE]
    case True => [BCDUMP_KTAB_TRUE]
  }

  /** The array part up to its last value that is not nil. */
  function Trim(arr: seq<TValue>): (s: seq<TValue>)
    ensures s <= arr && (s != [] ==> s[|s| - 1] != Nil) && forall k | |s| <= k < |arr| :: arr[k] == Nil
  {
    if arr == [] || arr[|arr| - 1] != Nil then arr else Trim(arr[..|arr| - 1])
  }

  /** The nodes in use, in the order in which they are written: the last one first. */
  function Used(node: seq<Node>): (s: seq<Node>)
    ensures forall n <- s :: n in node && n.val != Nil
    ensures forall n <- node | n.val != Nil :: n in s
  {
    if node == [] then []
    else
      var n := node[|node| - 1];
      (if n.val == Nil then [] else [n]) + Used(node[..|node| - 1])
  }

  lemma {:induction false} UsedFewer(node: seq<Node>)
    ensures |Used(node)| <= |node|
  {
    if node != [] {
      UsedFewer(node[..|node| - 1]);
    }
  }

  function ArrayBytes(dual: bool, arr: seq<TValue>): seq<byte> {
    if arr == [] then [] else KtabkBytes(dual, arr[0], true) + ArrayBytes(dual, arr[1..])
  }

  function HashBytes(dual: bool, nodes: seq<Node>): seq<byte> {
    if nodes == [] then []
    else EntryBytes(dual, nodes[0]) + HashBytes(dual, nodes[1..])
  }

  function EntryBytes(dual: bool, n: Node): seq<byte> {
    KtabkBytes(dual, n.key, false) + KtabkBytes(dual, n.val, true)
  }

  function KtabBytes(dual: bool, t: Table): seq<byte> {
    Encode(|Trim(t.arr)|) + Encode(|Used(t.node)|) + ArrayBytes(dual, Trim(t.arr)) + HashBytes(dual, Used(t.node))
  }

  function KgcBytes(dual: bool, c: KGC): seq<byte> {
    match c
    case KStr(chars) => Encode(BCDUMP_KGC_STR + |chars|) + chars
    case KChild(_) => Encode(BCDUMP_KGC_CHILD)
    case KTab(t) => Encode(BCDUMP_KGC_TAB) + KtabBytes(dual, t)
    case KI64(lo, hi) => Encode(BCDUMP_KGC_I64) + Pair(lo, hi)
    case KU64(lo, hi) => Encode(BCDUMP_KGC_U64) + Pair(lo, hi)
    case KComplex(rlo, rhi, ilo, ihi) => Encode(BCDUMP_KGC_COMPLEX) + Pair(rlo, rhi) + Pair(ilo, ihi)
  }

  function KgcsBytes(dual: bool, kgc: seq<KGC>): seq<byte> {
    if kgc == [] then [] else KgcBytes(dual, kgc[0]) + KgcsBytes(dual, kgc[1..])
  }

  function KnumBytes(dual: bool, o: TValue): seq<byte>
    requires IsNumber(o)
  {
    if Narrowed(dual, o).Some? then Encode(2 * U32(Narrowed(dual, o).value))
    else Encode(2 * o.lo + 1) + Encode(o.hi)
  }

  function KnumsBytes(dual: bool, kn: seq<TValue>): seq<byte>
    requires forall o <- kn :: IsNumber(o)
  {
    if kn == [] then [] else KnumBytes(dual, kn[0]) + KnumsBytes(dual, kn[1..])
  }

  predicate IsNumber(o: TValue) {
    o.Int? || o.Num?
  }

  function DebugHead(strip: bool, p: Proto): seq<byte> {
    if strip then []
    else if p.dbg == [] then Encode(0)
    else Encode(|p.dbg|) + Encode(p.firstline) + Encode(p.numline)
  }

  function DebugBytes(strip: bool, p: Proto): seq<byte> {
    if strip then [] else p.dbg
  }

  function PHead(strip: bool, p: Proto): seq<byte>
    requires |p.uv| / 2 < 256
  {
    [p.flags % 8, p.numparams, p.framesize, |p.uv| / 2] + Encode(|p.kgc|) + Encode(|p.kn|) + Encode(|p.bc| / 4) + DebugHead(strip, p)
  }

  /** The data of a prototype: all but its children. */
  function PData(dual: bool, strip: bool, p: Proto): seq<byte>
    requires |p.uv| / 2 < 256 && forall o <- p.kn :: IsNumber(o)
  {
    PHead(strip, p) + p.bc + p.uv + KgcsBytes(dual, p.kgc) + KnumsBytes(dual, p.kn) + DebugBytes(strip, p)
  }

  /** A prototype follows its children, which are written from the last constant to the first. */
  function ProtoBytes(dual: bool, strip: bool, p: Proto): seq<byte>
    requires ProtoOk(dual, strip, p)
    decreases p, |p.kgc| + 1
  {
    ChildrenBytes(dual, strip, p, 0) + Framed(PData(dual, strip, p))
  }

  function Framed(data: seq<byte>): seq<byte> {
    Encode(|data|) + data
  }

  function ChildrenBytes(dual: bool, strip: bool, p: Proto, i: nat): seq<byte>
    requires ProtoOk(dual, strip, p) && i <= |p.kgc|
    decreases p, |p.kgc| - i
  {
    if i == |p.kgc| then []
    else
      ChildrenBytes(dual, strip, p, i + 1) + (if p.kgc[i].KChild? then ProtoBytes(dual, strip, p.kgc[i].proto) else [])
  }

  function Header(strip: bool, p: Proto, name: seq<byte>): seq<byte> {
    [BCDUMP_HEAD1, BCDUMP_HEAD2, BCDUMP_HEAD3, BCDUMP_VERSION, HeaderFlags(strip, p)]
    + (if strip then [] else Encode(|name|) + name)
  }

  function HeaderFlags(strip: bool, p: Proto): byte {
    (if strip then BCDUMP_F_STRIP else 0) + (if p.flags / PROTO_FFI % 2 == 1 then BCDUMP_F_FFI else 0)
  }

  function DumpBytes(dual: bool, strip: bool, p: Proto, name: seq<byte>): seq<byte>
    requires ProtoOk(dual, strip, p)
  {
    Header(strip, p, name) + ProtoBytes(dual, strip, p) + [0]
  }

  // ---- What can be written --------------------------------------------------------------

  predicate StrOk(chars: seq<byte>) {
    |chars| <= LJ_MAX_MEM
  }

  predicate ValueOk(dual: bool, o: TValue) {
    ConstantOk(dual, o) && (o.Str? ==> StrOk(o.chars))
  }

  /** The key under which a table keeps a value: integers have one form. */
  function Canonical(dual: bool, key: TValue): TValue {
    if key.Num? && Narrow(key.lo, key.hi).Some? then SetInt(dual, Narrow(key.lo, key.hi).value) else key
  }

  predicate KeyOk(dual: bool, o: TValue) {
    ValueOk(dual, o) && o != Nil && !(o.Num? && IsNaN(o.lo, o.hi)) && Canonical(dual, o) == o
  }

  /** The index of a key in the array part, if it can have one. */
  function ArrayIndex(key: TValue): Option<int> {
    match key
    case Int(k) => Some(k)
    case Num(lo, hi) => Narrow(lo, hi)
    case _ => None
  }

  predicate InArray(key: TValue, size: nat) {
    ArrayIndex(key).Some? && 0 <= ArrayIndex(key).value < size
  }

  ghost predicate TableOk(dual: bool, t: Table) {
    && |t.arr| <= LJ_MAX_MEM && |t.node| <= LJ_MAX_MEM
    && (forall o <- t.arr :: ValueOk(dual, o))
    && (forall n <- t.node | n.val != Nil :: KeyOk(dual, n.key) && ValueOk(dual, n.val) && !InArray(n.key, |t.arr|))
    && (forall i, j | 0 <= i < j < |t.node| && t.node[i].val != Nil && t.node[j].val != Nil :: t.node[i].key != t.node[j].key)
  }

  ghost predicate KgcOk(dual: bool, c: KGC) {
    && (c.KStr? ==> StrOk(c.chars))
    && (c.KTab? ==> TableOk(dual, c.tab))
  }

  /** A prototype that fits into memory, with its children. */
  ghost predicate ProtoOk(dual: bool, strip: bool, p: Proto)
    decreases p
  {
    && |p.bc| % 4 == 0 && |p.uv| % 2 == 0 && |p.uv| / 2 < 256
    && (forall o <- p.kn :: IsNumber(o) && ConstantOk(dual, o))
    && (forall c <- p.kgc :: KgcOk(dual, c))
    && (forall c <- p.kgc | c.KChild? :: ProtoOk(dual, strip, c.proto))
    && ((exists c <- p.kgc :: c.KChild?) ==> p.flags % 2 == 1)
    && |PData(dual, strip, p)| <= LJ_MAX_MEM
  }

  lemma {:induction false} KgcsLonger(dual: bool, kgc: seq<KGC>)
    ensures |kgc| <= |KgcsBytes(dual, kgc)|
  {
    hide KtabBytes, Encode;
    if kgc != [] {
      KgcsLonger(dual, kgc[1..]);
    }
  }

  lemma {:induction false} KnumsLonger(dual: bool, kn: seq<TValue>)
    requires forall o <- kn :: IsNumber(o)
    ensures |kn| <= |KnumsBytes(dual, kn)|
  {
    hide Encode, Narrowed;
    if kn != [] {
      KnumsLonger(dual, kn[1..]);
    }
  }

  lemma SizesFit(dual: bool, strip: bool, p: Proto)
    requires ProtoOk(dual, strip, p)
    ensures |p.uv| / 2 < 256 && forall o <- p.kn :: IsNumber(o)
    ensures |p.kgc| < U32_RANGE && |p.kn| < U32_RANGE && |p.bc| < U32_RANGE && 4 <= |PData(dual, strip, p)| < U32_RANGE
    ensures |DebugBytes(strip, p)| < U32_RANGE
  {
    hide KgcsBytes, KnumsBytes, KgcOk, ConstantOk, IsNumber, Encode;
    KgcsLonger(dual, p.kgc);
    KnumsLonger(dual, p.kn);
  }

  lemma ChildFits(dual: bool, strip: bool, p: Proto, i: nat)
    requires ProtoOk(dual, strip, p) && i < |p.kgc| && p.kgc[i].KChild?
    ensures ProtoOk(dual, strip, p.kgc[i].proto)
  {}

  // ---- What is read back ----------------------------------------------------------------

  function Reread(t: Table): Table {
    Table(Trim(t.arr), Used(t.node))
  }

  /** What a table maps its keys to. */
  ghost predicate Maps(dual: bool, t: Table, key: TValue, val: TValue) {
    val != Nil && ((exists i | 0 <= i < |t.arr| :: IsInt32(i) && SetInt(dual, i) == key && t.arr[i] == val)
                   || Node(key, val) in t.node)
  }

  /** The table that is read back has the contents of the one that was written. */
  lemma RereadSame(dual: bool, t: Table, key: TValue, val: TValue)
    ensures Maps(dual, Reread(t), key, val) <==> Maps(dual, t, key, val)
  {
    var u := Trim(t.arr);
    if exists i | 0 <= i < |t.arr| :: IsInt32(i) && SetInt(dual, i) == key && t.arr[i] == val {
      var i :| 0 <= i < |t.arr| && IsInt32(i) && SetInt(dual, i) == key && t.arr[i] == val;
      assert val != Nil ==> i < |u| && u[i] == val;
    }
    assert Node(key, val) in t.node && val != Nil ==> Node(key, val) in Used(t.node);
    assert forall i | 0 <= i < |u| :: u[i] == t.arr[i];
  }

  /** The prototype that is read back: tables without unused slots, debug info only if it was written. */
  function Plain(strip: bool, p: Proto): Proto
    decreases p, |p.kgc| + 1
  {
    var debug := !strip && p.dbg != [];
    Proto(p.flags % 8, p.numparams, p.framesize, p.bc, p.uv, PlainKgcs(strip, p, 0), p.kn,
          if debug then p.firstline else 0, if debug then p.numline else 0, if debug then p.dbg else [])
  }

  function PlainKgcs(strip: bool, p: Proto, i: nat): (s: seq<KGC>)
    requires i <= |p.kgc|
    ensures |s| == |p.kgc| - i
    decreases p, |p.kgc| - i
  {
    if i == |p.kgc| then [] else [PlainKgc(strip, p.kgc[i])] + PlainKgcs(strip, p, i + 1)
  }

  function PlainKgc(strip: bool, c: KGC): KGC
    decreases c, 0
  {
    match c
    case KChild(child) => KChild(Plain(strip, child))
    case KTab(t) => KTab(Reread(t))
    case c => c
  }
}
