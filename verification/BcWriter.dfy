/** The dump writer: it fills a buffer for each prototype, and hands it to a callback. */
module Writer {
  import opened Powers
  import opened Uleb
  import opened Values
  import opened Dump

  /** The bytes p at position i of the buffer, and nothing else changed. */
  ghost predicate Wrote(before: seq<byte>, after: seq<byte>, i: nat, p: seq<byte>) {
    i + |p| <= |before| && after == before[..i] + p + before[i + |p|..]
  }

  lemma WroteText(before: seq<byte>, after: seq<byte>, i: nat, p: seq<byte>)
    requires Wrote(before, after, i, p)
    ensures |after| == |before| && after[..i + |p|] == before[..i] + p
  {}

  /** What is written in front of data makes one block with it. */
  lemma InOneBlock(was: seq<byte>, buf: seq<byte>, at: nat, code: seq<byte>, data: seq<byte>)
    requires Wrote(was, buf, at, code) && at + |code| + |data| <= |was| && was[at + |code|..at + |code| + |data|] == data
    ensures |buf| == |was| && buf[at..at + |code| + |data|] == code + data
  {
    var block := buf[at..at + |code| + |data|];
    forall k | 0 <= k < |block| ensures block[k] == (code + data)[k] {
      assert k >= |code| ==> was[at + |code|..at + |code| + |data|][k - |code|] == data[k - |code|];
    }
  }

  lemma WroteMore(a: seq<byte>, b: seq<byte>, c: seq<byte>, i: nat, p: seq<byte>, x: byte)
    requires Wrote(a, b, i, p) && i + |p| < |b| && c == b[i + |p| := x]
    ensures Wrote(a, c, i, p + [x])
  {}

  class BCWriteCtx {
    const dual: bool              // LJ_DUALNUM
    const strip: bool
    const wfunc: nat -> int       // what the writer callback answers to each block
    var buf: seq<byte>            // sb.buf, of size sb.sz
    var n: nat                    // sb.n
    var status: int
    var calls: nat
    var out: seq<byte>            // all blocks so far

    constructor (dual: bool, strip: bool, wfunc: nat -> int)
      ensures Valid() && this.dual == dual && this.strip == strip && this.wfunc == wfunc
      ensures n == 0 && status == 0 && calls == 0 && out == [] && Answered()
    {
      this.dual, this.strip, this.wfunc := dual, strip, wfunc;
      buf, n, status, calls, out := seq(1024, _ => 0), 0, 0, 0, [];
    }

    ghost predicate Valid()
      reads this
    {
      n <= |buf| && |buf| >= 1024
    }

    /** The status is the last answer of the callback. */
    ghost predicate Answered()
      reads this`status, this`calls
    {
      status == if calls == 0 then 0 else wfunc(calls - 1)
    }

    /** What is in the buffer. */
    ghost function Text(): seq<byte>
      requires Valid()
      reads this
    {
      buf[..n]
    }

    // ---- Buffer ---------------------------------------------------------------------------

    /** bcwrite_need, bcwrite_resize */
    method Need(len: nat)
      requires Valid()
      modifies this`buf
      ensures Valid() && n + len <= |buf| && Text() == old(Text())
    {
      if n + len > |buf| {
        var sz := 2 * |buf|;
        while n + len > sz
          invariant |buf| <= sz && sz > 0
          decreases n + len - sz
        {
          sz := 2 * sz;
        }
        buf := buf + seq(sz - |buf|, _ => 0);
      }
    }

    method Block(p: seq<byte>)
      requires Valid() && n + |p| <= |buf|
      modifies this`buf, this`n
      ensures Valid() && n == old(n) + |p| && Wrote(old(buf), buf, old(n), p) && Text() == old(Text()) + p
    {
      var q := n;
      n := n + |p|;
      var i := 0;
      while i < |p|
        invariant 0 <= i <= |p| && n == q + |p| && q == old(n) && Wrote(old(buf), buf, q, p[..i]) && |buf| == |old(buf)|
      {
        WroteMore(old(buf), buf, buf[q + i := p[i]], q, p[..i], p[i]);
        buf := buf[q + i := p[i]];
        i := i + 1;
        assert p[..i] == p[..i - 1] + [p[i - 1]];
      }
      assert p[..i] == p;
      WroteText(old(buf), buf, q, p);
    }

    method Byte(b: byte)
      requires Valid() && n < |buf|
      modifies this`buf, this`n
      ensures Valid() && |buf| == |old(buf)| && n == old(n) + 1 && Text() == old(Text()) + [b]
    {
      buf, n := buf[n := b], n + 1;
    }

    /** bcwrite_uleb128 */
    method Uleb128(v0: u32)
      requires Valid() && n + |Encode(v0)| <= |buf|
      modifies this`buf, this`n
      ensures Valid() && n == old(n) + |Encode(v0)| && Wrote(old(buf), buf, old(n), Encode(v0)) && Text() == old(Text()) + Encode(v0)
    {
      hide Wrote;
      var v := v0;
      var m := n;
      ghost var p: seq<byte> := [];
      WroteNothing(buf, n);
      while v >= 0x80
        invariant p + Encode(v) == Encode(v0) && m == n + |p| && n == old(n) && Wrote(old(buf), buf, n, p) && |buf| == |old(buf)|
        decreases v
      {
        WroteMore(old(buf), buf, buf[m := v % 128 + 128], n, p, v % 128 + 128);
        assert p + Encode(v) == p + [v % 128 + 128] + Encode(v / 128);
        p := p + [v % 128 + 128];
        buf, m := buf[m := v % 128 + 128], m + 1;
        v := v / 128;
      }
      assert Encode(v) == [v];
      WroteMore(old(buf), buf, buf[m := v], n, p, v);
      buf, m := buf[m := v], m + 1;
      WroteText(old(buf), buf, n, Encode(v0));
      n := m;
    }

    // ---- Constants ------------------------------------------------------------------------

    /** bcwrite_uleb128 where there is room for the longest code */
    method Number(v: u32)
      requires Valid() && n + 5 <= |buf|
      modifies this`buf, this`n
      ensures Valid() && |buf| == |old(buf)| && old(n) < n <= old(n) + 5 && Text() == old(Text()) + Encode(v)
    {
      hide Encode;
      EncodeShort(v);
      Uleb128(v);
      WroteText(old(buf), buf, old(n), Encode(v));
    }

    method Words(lo: u32, hi: u32)
      requires Valid() && n + 10 <= |buf|
      modifies this`buf, this`n
      ensures Valid() && |buf| == |old(buf)| && n <= old(n) + 10 && Text() == old(Text()) + Pair(lo, hi)
    {
      Number(lo);
      Number(hi);
    }

    /** bcwrite_ktabk */
    method Ktabk(o: TValue, narrow: bool)
      requires Valid() && ValueOk(dual, o)
      modifies this`buf, this`n
      ensures Valid() && Text() == old(Text()) + KtabkBytes(dual, o, narrow)
    {
      hide Encode, Narrow, Pair, BCWriteCtx.Text;
      Need(1 + 10);
      match o
      case Str(chars) =>
        Need(5 + |chars|);
        Number(BCDUMP_KTAB_STR + |chars|);
        Block(chars);
        Joined(old(Text()), Encode(BCDUMP_KTAB_STR + |chars|), chars);
      case Int(k) =>
        Byte(BCDUMP_KTAB_INT);
        Number(U32(k));
        Joined(old(Text()), [BCDUMP_KTAB_INT], Encode(U32(k)));
      case Num(lo, hi) =>
        if !dual && narrow {
          var k := Narrow(lo, hi);
          if k.Some? {
            Byte(BCDUMP_KTAB_INT);
            Number(U32(k.value));
            Joined(old(Text()), [BCDUMP_KTAB_INT], Encode(U32(k.value)));
            return;
          }
        }
        Byte(BCDUMP_KTAB_NUM);
        Words(lo, hi);
        Joined(old(Text()), [BCDUMP_KTAB_NUM], Pair(lo, hi));
      case Nil => Byte(BCDUMP_KTAB_NIL);
      case False => Byte(BCDUMP_KTAB_FALSE);
      case True => Byte(BCDUMP_KTAB_TRUE);
    }

    /** bcwrite_ktab */
    method Ktab(t: Table)
      requires Valid() && TableOk(dual, t) && n + 10 <= |buf|
      modifies this`buf, this`n
      ensures Valid() && Text() == old(Text()) + KtabBytes(dual, t)
    {
      hide Encode, Trim, Used, ArrayBytes, HashBytes, BCWriteCtx.Text;
      var narray := ArraySize(t.arr);
      var nhash := HashSize(t.node);
      UsedFits(dual, t);
      Number(narray);
      Number(nhash);
      Joined(old(Text()), Encode(narray), Encode(nhash));
      if narray > 0 {
        ArrayEntries(t.arr, narray);
      } else {
        NoEntries(dual, Text());
      }
      Joined(old(Text()), Encode(narray) + Encode(nhash), ArrayBytes(dual, Trim(t.arr)));
      if nhash > 0 {
        HashEntries(t, nhash);
      } else {
        NoEntries(dual, Text());
      }
      Joined(old(Text()), Encode(narray) + Encode(nhash) + ArrayBytes(dual, Trim(t.arr)), HashBytes(dual, Used(t.node)));
    }

    static method ArraySize(arr: seq<TValue>) returns (narray: nat)
      ensures narray == |Trim(arr)|
    {
      var i := |arr| - 1;
      while i >= 0 && arr[i] == Nil
        invariant -1 <= i < |arr| && Trim(arr[..i + 1]) == Trim(arr)
      {
        assert arr[..i + 1][..i] == arr[..i];
        i := i - 1;
      }
      assert i >= 0 ==> arr[..i + 1][i] == arr[i];
      narray := i + 1;
    }

    static method HashSize(node: seq<Node>) returns (nhash: nat)
      ensures nhash == |Used(node)|
    {
      hide Used;
      var i := 0;
      nhash := 0;
      NoneUsed(node);
      while i < |node|
        invariant 0 <= i <= |node| && nhash == |Used(node[..i])|
      {
        UsedNext(node, i);
        nhash := nhash + (if node[i].val != Nil then 1 else 0);
        i := i + 1;
      }
      assert node[..i] == node;
    }

    method ArrayEntries(arr: seq<TValue>, narray: nat)
      requires Valid() && (forall o <- arr :: ValueOk(dual, o)) && narray == |Trim(arr)|
      modifies this`buf, this`n
      ensures Valid() && Text() == old(Text()) + ArrayBytes(dual, Trim(arr))
    {
      hide BCWriteCtx.Text, KtabkBytes, ValueOk;
      var i := 0;
      ghost var done := [];
      NoEntries(dual, Text());
      while i < narray
        invariant 0 <= i <= narray && Valid() && Text() == old(Text()) + done
        invariant done + ArrayBytes(dual, Trim(arr)[i..]) == ArrayBytes(dual, Trim(arr))
      {
        Ktabk(arr[i], true);
        Joined(old(Text()), done, KtabkBytes(dual, arr[i], true));
        ArrayNext(dual, Trim(arr), i, done);
        done := done + KtabkBytes(dual, arr[i], true);
        i := i + 1;
      }
      assert Trim(arr)[i..] == [];
    }

    method HashEntries(t: Table, nhash: nat)
      requires Valid() && TableOk(dual, t) && nhash == |Used(t.node)| && nhash > 0
      modifies this`buf, this`n
      ensures Valid() && Text() == old(Text()) + HashBytes(dual, Used(t.node))
    {
      hide BCWriteCtx.Text, EntryBytes, TableOk, Used, HashBytes;
      var i := nhash;
      var pos := |t.node| - 1;
      ghost var done := [];
      NoEntries(dual, Text());
      UsedSome(t.node);
      assert t.node[..pos + 1] == t.node;
      while true
        invariant 0 <= pos < |t.node| && Valid() && Text() == old(Text()) + done
        invariant i == |Used(t.node[..pos + 1])| > 0
        invariant done + HashBytes(dual, Used(t.node[..pos + 1])) == HashBytes(dual, Used(t.node))
        decreases pos
      {
        HashNext(dual, t.node, pos, done);
        if t.node[pos].val != Nil {
          Entry(t, t.node[pos]);
          Joined(old(Text()), done, EntryBytes(dual, t.node[pos]));
          done := done + EntryBytes(dual, t.node[pos]);
          i := i - 1;
          if i == 0 {
            NoEntries(dual, done);
            return;
          }
        }
        UsedSome(t.node[..pos]);
        pos := pos - 1;
      }
    }

    method Entry(t: Table, m: Node)
      requires Valid() && TableOk(dual, t) && m in t.node && m.val != Nil
      modifies this`buf, this`n
      ensures Valid() && Text() == old(Text()) + EntryBytes(dual, m)
    {
      hide BCWriteCtx.Text, KtabkBytes, ValueOk, KeyOk;
      EntryOk(dual, t, m);
      Ktabk(m.key, false);
      Ktabk(m.val, true);
      Joined(old(Text()), KtabkBytes(dual, m.key, false), KtabkBytes(dual, m.val, true));
    }

    /** bcwrite_kgc */
    method Kgc(kgc: seq<KGC>)
      requires Valid() && forall c <- kgc :: KgcOk(dual, c)
      modifies this`buf, this`n
      ensures Valid() && Text() == old(Text()) + KgcsBytes(dual, kgc)
    {
      hide BCWriteCtx.Text, KgcBytes, KgcOk;
      var i := 0;
      ghost var done := [];
      NoEntries(dual, Text());
      assert kgc[0..] == kgc;
      while i < |kgc|
        invariant 0 <= i <= |kgc| && Valid() && Text() == old(Text()) + done
        invariant done + KgcsBytes(dual, kgc[i..]) == KgcsBytes(dual, kgc)
      {
        Constant(kgc[i]);
        Joined(old(Text()), done, KgcBytes(dual, kgc[i]));
        KgcsNext(dual, kgc, i, done);
        done := done + KgcBytes(dual, kgc[i]);
        i := i + 1;
      }
      assert kgc[i..] == [];
    }

    /** One constant of bcwrite_kgc */
    method Constant(c: KGC)
      requires Valid() && KgcOk(dual, c)
      modifies this`buf, this`n
      ensures Valid() && Text() == old(Text()) + KgcBytes(dual, c)
    {
      hide Encode, BCWriteCtx.Text, KtabBytes, Pair, TableOk;
      var tp, need := BCDUMP_KGC_CHILD, 1;
      match c {
        case KStr(chars) => tp, need := BCDUMP_KGC_STR + |chars|, 5 + |chars|;
        case KChild(_) => tp := BCDUMP_KGC_CHILD;
        case KI64(_, _) => tp, need := BCDUMP_KGC_I64, 1 + 4 * 5;
        case KU64(_, _) => tp, need := BCDUMP_KGC_U64, 1 + 4 * 5;
        case KComplex(_, _, _, _) => tp, need := BCDUMP_KGC_COMPLEX, 1 + 4 * 5;
        case KTab(_) => tp, need := BCDUMP_KGC_TAB, 1 + 2 * 5;
      }
      Need(need);
      TypeLength(tp);
      Uleb128(tp);
      match c {
        case KStr(chars) =>
          Block(chars);
          Joined(old(Text()), Encode(tp), chars);
        case KTab(t) =>
          Ktab(t);
          Joined(old(Text()), Encode(tp), KtabBytes(dual, t));
        case KChild(_) =>
        case KI64(lo, hi) =>
          Words(lo, hi);
          Joined(old(Text()), Encode(tp), Pair(lo, hi));
        case KU64(lo, hi) =>
          Words(lo, hi);
          Joined(old(Text()), Encode(tp), Pair(lo, hi));
        case KComplex(rlo, rhi, ilo, ihi) =>
          Words(rlo, rhi);
          Words(ilo, ihi);
          Joined(old(Text()), Encode(tp), Pair(rlo, rhi));
          Joined(old(Text()), Encode(tp) + Pair(rlo, rhi), Pair(ilo, ihi));
      }
    }

    /** bcwrite_knum */
    method Knum(kn: seq<TValue>)
      requires Valid() && forall o <- kn :: IsNumber(o) && ConstantOk(dual, o)
      modifies this`buf, this`n
      ensures Valid() && Text() == old(Text()) + KnumsBytes(dual, kn)
    {
      hide BCWriteCtx.Text, KnumBytes, IsNumber, ConstantOk;
      Need(10 * |kn|);
      ghost var start := n;
      var i := 0;
      ghost var done := [];
      NoEntries(dual, Text());
      assert kn[0..] == kn;
      while i < |kn|
        invariant 0 <= i <= |kn| && Valid() && Text() == old(Text()) + done && n + 10 * (|kn| - i) <= |buf|
        invariant done + KnumsBytes(dual, kn[i..]) == KnumsBytes(dual, kn)
      {
        OneNumber(kn[i]);
        Joined(old(Text()), done, KnumBytes(dual, kn[i]));
        KnumsNext(dual, kn, i, done);
        done := done + KnumBytes(dual, kn[i]);
        i := i + 1;
      }
      assert kn[i..] == [];
    }

    /** One number constant: a 33-bit code of the integer (lowest bit 0) or the low word (lowest bit
        1). The code is made from 32 bits, and its last byte is patched in place. */
    method OneNumber(o: TValue)
      requires Valid() && IsNumber(o) && ConstantOk(dual, o) && n + 10 <= |buf|
      modifies this`buf, this`n
      ensures Valid() && |buf| == |old(buf)| && n <= old(n) + 10 && Text() == old(Text()) + KnumBytes(dual, o)
    {
      hide BCWriteCtx.Text, Encode, Narrow, Patched, Squeezed;
      if o.Int? {
        SaveWord(U32(o.i), 0);
        return;
      }
      if !dual {
        var k := Narrow(o.lo, o.hi);
        if k.Some? {
          SaveWord(U32(k.value), 0);
          return;
        }
      }
      SaveWord(o.lo, 1);
      Number(o.hi);
      Joined(old(Text()), Encode(2 * o.lo + 1), Encode(o.hi));
    }

    method SaveWord(w: u32, tag: nat)
      requires Valid() && tag <= 1 && n + 5 <= |buf|
      modifies this`buf, this`n
      ensures Valid() && |buf| == |old(buf)| && n <= old(n) + 5 && Text() == old(Text()) + Encode(2 * w + tag)
    {
      hide Encode;
      PatchMakes33(w, tag);
      Number(Squeezed(w, tag));
      if w >= 0x8000_0000 {
        ghost var s := Encode(Squeezed(w, tag));
        ghost var text := Text();
        assert text == old(Text()) + s;
        var b := buf[n - 1];
        assert b == text[n - 1] == s[|s| - 1];
        buf := buf[n - 1 := b % 8 + (w / 0x800_0000) % 32 / 8 * 8];
        assert Text() == text[n - 1 := b % 8 + (w / 0x800_0000) % 32 / 8 * 8];
        assert Text() == old(Text()) + Patched(s, w);
      }
    }

    // ---- Prototypes -----------------------------------------------------------------------

    /** Hands a block to the callback. */
    method Write(block: seq<byte>)
      modifies this`status, this`calls, this`out
      ensures status == wfunc(old(calls)) && calls == old(calls) + 1 && out == old(out) + block
      ensures Answered()
    {
      status, calls, out := wfunc(calls), calls + 1, out + block;
    }

    /** What came out for bytes that were to be written: all, or as much as was before a failure. */
    ghost predicate Sent(before: seq<byte>, wasOk: bool, bytes: seq<byte>)
      reads this
    {
      && (status == 0 ==> wasOk && out == before + bytes)
      && (status != 0 ==> before <= out <= before + bytes)
      && (!wasOk ==> out == before)
    }

    /** bcwrite_proto */
    method WriteProto(p: Proto)
      requires Valid() && Answered() && ProtoOk(dual, strip, p)
      modifies this
      ensures Valid() && Sent(old(out), old(status) == 0, ProtoBytes(dual, strip, p))
      ensures Answered()
      decreases p, 1
    {
      hide ProtoOk, PData, PHead, Framed;
      ProtoFits(dual, strip, p);
      ghost var wasOk, before := status == 0, out;
      if p.flags % 2 == 1 {
        WriteChildren(p);
      } else {
        NoChildren(dual, strip, p, 0);
        NoEntries(dual, before);
      }
      ghost var middle, isOk := out, status == 0;
      Data(p);
      if status == 0 {
        FillIn(PData(dual, strip, p));
      }
      SentBoth(before, middle, wasOk, isOk, ChildrenBytes(dual, strip, p, 0), Framed(PData(dual, strip, p)), out, status);
    }

    /** The children, from the last constant to the first. */
    method WriteChildren(p: Proto)
      requires Valid() && Answered() && ProtoOk(dual, strip, p)
      modifies this
      ensures Valid() && Sent(old(out), old(status) == 0, ChildrenBytes(dual, strip, p, 0))
      ensures Answered()
      decreases p, 0
    {
      hide ProtoOk, ProtoBytes;
      ghost var wasOk, before := status == 0, out;
      NoEntries(dual, before);
      var i := |p.kgc|;
      while i > 0
        invariant 0 <= i <= |p.kgc| && Valid() && Answered() && Sent(before, wasOk, ChildrenBytes(dual, strip, p, i))
      {
        i := i - 1;
        ghost var middle, isOk := out, status == 0;
        if p.kgc[i].KChild? {
          ChildFits(dual, strip, p, i);
          WriteProto(p.kgc[i].proto);
          SentBoth(before, middle, wasOk, isOk, ChildrenBytes(dual, strip, p, i + 1), ProtoBytes(dual, strip, p.kgc[i].proto), out, status);
        } else {
          assert ChildrenBytes(dual, strip, p, i) == ChildrenBytes(dual, strip, p, i + 1) + [];
        }
      }
    }

    /** Fills the buffer from offset 5 on, which leaves room for the length. */
    method Data(p: Proto)
      requires Valid() && ProtoOk(dual, strip, p)
      modifies this`buf, this`n
      ensures Valid() && |p.uv| / 2 < 256 && (forall o <- p.kn :: IsNumber(o)) && n == 5 + |PData(dual, strip, p)| && Text()[5..] == PData(dual, strip, p)
    {
      hide ProtoOk, KgcOk, ConstantOk, IsNumber, KgcsBytes, KnumsBytes, Encode, BCWriteCtx.Text, PHead;
      ProtoFits(dual, strip, p);
      n := 0;
      n := 5;
      ghost var front := Text();
      TextLength();
      Need(4 + 6 * 5 + |p.bc| + |p.uv|);
      HeadPart(p);
      Block(p.bc);
      Block(p.uv);
      Kgc(p.kgc);
      Knum(p.kn);
      if !strip && p.dbg != [] {
        Need(|p.dbg|);
        Block(p.dbg);
      }
      TextLength();
      Parts(front, PHead(strip, p), p.bc, p.uv, KgcsBytes(dual, p.kgc), KnumsBytes(dual, p.kn), DebugBytes(strip, p), Text());
    }

    lemma TextLength()
      requires Valid()
      ensures |Text()| == n
    {}

    method HeadPart(p: Proto)
      requires Valid() && |p.uv| / 2 < 256 && n + 4 + 6 * 5 + |p.bc| + |p.uv| <= |buf|
      requires |p.kgc| < U32_RANGE && |p.kn| < U32_RANGE && |p.bc| / 4 < U32_RANGE && |DebugBytes(strip, p)| < U32_RANGE
      modifies this`buf, this`n
      ensures Valid() && Text() == old(Text()) + PHead(strip, p) && n + |p.bc| + |p.uv| <= |buf|
    {
      hide Encode, BCWriteCtx.Text, DebugBytes;
      Byte(p.flags % 8);
      Byte(p.numparams);
      Byte(p.framesize);
      Byte(|p.uv| / 2);
      Number(|p.kgc|);
      Number(|p.kn|);
      Number(|p.bc| / 4);
      ghost var text := Text();
      assert text == old(Text()) + ([p.flags % 8, p.numparams, p.framesize, |p.uv| / 2] + Encode(|p.kgc|) + Encode(|p.kn|) + Encode(|p.bc| / 4));
      Joined(old(Text()), [p.flags % 8, p.numparams, p.framesize, |p.uv| / 2] + Encode(|p.kgc|) + Encode(|p.kn|) + Encode(|p.bc| / 4), DebugHead(strip, p));
      DebugPart(p);
    }

    method DebugPart(p: Proto)
      requires Valid() && n + 3 * 5 <= |buf| && |DebugBytes(strip, p)| < U32_RANGE
      modifies this`buf, this`n
      ensures Valid() && Text() == old(Text()) + DebugHead(strip, p) && |buf| == |old(buf)| && n <= old(n) + 15
    {
      hide Encode, BCWriteCtx.Text;
      NoEntries(dual, Text());
      if !strip {
        var sizedbg := |p.dbg|;
        Number(sizedbg);
        if sizedbg > 0 {
          Number(p.firstline);
          Number(p.numline);
          Joined(old(Text()), Encode(sizedbg), Encode(p.firstline));
          Joined(old(Text()), Encode(sizedbg) + Encode(p.firstline), Encode(p.numline));
        }
      }
    }

    /** Puts the length in front of the data: its code ends just where the data begins. */
    method FillIn(ghost data: seq<byte>)
      requires Valid() && Answered() && status == 0 && n == 5 + |data| && Text()[5..] == data && 0 < |data| < U32_RANGE
      modifies this
      ensures Valid() && Sent(old(out), true, Framed(data)) && n == 5 && |buf| == |old(buf)|
      ensures Answered()
    {
      hide Encode, Wrote;
      var len := n - 5;
      var nn := (Fls(len) + 8) * 9 / 64;
      LengthPrefix(len);
      assert buf[5..5 + len] == data;
      n := 5 - nn;
      ghost var was := buf;
      Uleb128(len);
      assert n == 5;
      InOneBlock(was, buf, 5 - nn, Encode(len), data);
      Write(buf[5 - nn..5 + len]);
    }

    /** bcwrite_header */
    method WriteHeader(p: Proto, name: seq<byte>)
      requires Valid() && Answered() && |name| <= LJ_MAX_MEM && status == 0
      modifies this
      ensures Valid() && out == old(out) + Header(strip, p, name)
      ensures Answered()
    {
      hide Encode, BCWriteCtx.Text;
      n := 0;
      ghost var front := Text();
      TextLength();
      assert front == [];
      Need(5 + 5 + |name|);
      Byte(BCDUMP_HEAD1);
      Byte(BCDUMP_HEAD2);
      Byte(BCDUMP_HEAD3);
      Byte(BCDUMP_VERSION);
      Byte((if strip then BCDUMP_F_STRIP else 0) + (if p.flags / PROTO_FFI % 2 == 1 then BCDUMP_F_FFI else 0));
      ghost var five := Text();
      assert five == [BCDUMP_HEAD1, BCDUMP_HEAD2, BCDUMP_HEAD3, BCDUMP_VERSION, HeaderFlags(strip, p)];
      if !strip {
        Number(|name|);
        Block(name);
        Joined(five, Encode(|name|), name);
      } else {
        NoEntries(dual, five);
      }
      WholeText();
      Write(buf[..n]);
    }

    lemma WholeText()
      requires Valid()
      ensures Text() == buf[..n]
    {}

    /** bcwrite_footer */
    method Footer()
      requires Answered()
      modifies this`status, this`calls, this`out
      ensures Sent(old(out), old(status) == 0, [0])
      ensures Answered()
    {
      if status == 0 {
        Write([0]);
      }
    }

    /** lj_bcwrite, with the context new: if the callback takes all blocks, the whole dump was written. */
    method WriteDump(p: Proto, name: seq<byte>) returns (r: int)
      requires Valid() && Answered() && ProtoOk(dual, strip, p) && |name| <= LJ_MAX_MEM && status == 0 && out == []
      modifies this
      ensures r == 0 ==> out == DumpBytes(dual, strip, p, name)
      ensures r != 0 ==> out <= DumpBytes(dual, strip, p, name)
      ensures r == status
      ensures Answered()
    {
      hide ProtoOk, ProtoBytes, Header;
      WriteHeader(p, name);
      ghost var first, isOk1 := out, status == 0;
      WriteProto(p);
      ghost var second, isOk2 := out, status == 0;
      Footer();
      SentBoth(first, second, isOk1, isOk2, ProtoBytes(dual, strip, p), [0], out, status);
      Joined(Header(strip, p, name), ProtoBytes(dual, strip, p), [0]);
      assert [] + Header(strip, p, name) == Header(strip, p, name);
      r := status;
    }
  }

  /** Two parts in sequence. */
  lemma SentBoth(before: seq<byte>, middle: seq<byte>, wasOk: bool, isOk: bool, a: seq<byte>, b: seq<byte>, out: seq<byte>, status: int)
    requires (isOk ==> wasOk && middle == before + a) && (!isOk ==> before <= middle <= before + a) && (!wasOk ==> middle == before)
    requires (status == 0 ==> isOk && out == middle + b) && (status != 0 ==> middle <= out <= middle + b) && (!isOk ==> out == middle)
    ensures (status == 0 ==> wasOk && out == before + (a + b)) && (status != 0 ==> before <= out <= before + (a + b)) && (!wasOk ==> out == before)
  {
    assert before + a + b == before + (a + b);
    assert before + a <= before + (a + b);
  }

  lemma NoneUsed(node: seq<Node>)
    ensures |Used(node[..0])| == 0
  {}

  lemma UsedNext(node: seq<Node>, i: nat)
    requires i < |node|
    ensures |Used(node[..i + 1])| == |Used(node[..i])| + (if node[i].val != Nil then 1 else 0)
  {
    assert node[..i + 1][..i] == node[..i];
  }

  lemma ProtoFits(dual: bool, strip: bool, p: Proto)
    requires ProtoOk(dual, strip, p)
    ensures |p.uv| / 2 < 256 && (forall o <- p.kn :: IsNumber(o) && ConstantOk(dual, o)) && forall c <- p.kgc :: KgcOk(dual, c)
    ensures |p.kgc| < U32_RANGE && |p.kn| < U32_RANGE && |p.bc| < U32_RANGE && 0 < |PData(dual, strip, p)| < U32_RANGE
    ensures |DebugBytes(strip, p)| < U32_RANGE
    ensures p.flags % 2 == 0 ==> forall i | 0 <= i < |p.kgc| :: !p.kgc[i].KChild?
  {
    SizesFit(dual, strip, p);
    hide PData, KgcOk, ConstantOk, IsNumber, DebugBytes;
  }

  lemma {:induction false} NoChildren(dual: bool, strip: bool, p: Proto, i: nat)
    requires ProtoOk(dual, strip, p) && i <= |p.kgc| && forall k | 0 <= k < |p.kgc| :: !p.kgc[k].KChild?
    ensures ChildrenBytes(dual, strip, p, i) == []
    decreases |p.kgc| - i
  {
    hide ProtoOk;
    if i < |p.kgc| {
      NoChildren(dual, strip, p, i + 1);
    }
  }

  lemma Parts(front: seq<byte>, a: seq<byte>, b: seq<byte>, c: seq<byte>, d: seq<byte>, e: seq<byte>, f: seq<byte>, text: seq<byte>)
    requires |front| == 5 && text == front + a + b + c + d + e + f
    ensures text[5..] == a + b + c + d + e + f && |text| == 5 + |a + b + c + d + e + f|
  {}

  lemma NoEntries(dual: bool, text: seq<byte>)
    ensures text == text + [] && ArrayBytes(dual, []) == [] && HashBytes(dual, []) == []
    ensures forall arr :: |Trim(arr)| == 0 ==> text + ArrayBytes(dual, Trim(arr)) == text
    ensures forall node :: |Used(node)| == 0 ==> text + HashBytes(dual, Used(node)) == text
  {}

  lemma UsedFits(dual: bool, t: Table)
    requires TableOk(dual, t)
    ensures |Used(t.node)| < U32_RANGE && |Trim(t.arr)| < U32_RANGE
  {
    UsedFewer(t.node);
  }

  lemma EntryOk(dual: bool, t: Table, m: Node)
    requires TableOk(dual, t) && m in t.node && m.val != Nil
    ensures ValueOk(dual, m.key) && ValueOk(dual, m.val)
  {}

  lemma ArrayNext(dual: bool, arr: seq<TValue>, i: nat, done: seq<byte>)
    requires i < |arr|
    ensures done + ArrayBytes(dual, arr[i..]) == done + KtabkBytes(dual, arr[i], true) + ArrayBytes(dual, arr[i + 1..])
  {
    assert arr[i..][1..] == arr[i + 1..];
  }

  lemma HashNext(dual: bool, node: seq<Node>, pos: nat, done: seq<byte>)
    requires pos < |node|
    ensures node[pos].val == Nil ==> Used(node[..pos + 1]) == Used(node[..pos])
    ensures node[pos].val != Nil ==> |Used(node[..pos + 1])| == 1 + |Used(node[..pos])|
    ensures node[pos].val != Nil ==>
      done + HashBytes(dual, Used(node[..pos + 1])) == done + EntryBytes(dual, node[pos]) + HashBytes(dual, Used(node[..pos]))
  {
    assert node[..pos + 1][..pos] == node[..pos];
    if node[pos].val != Nil {
      assert ([node[pos]] + Used(node[..pos]))[1..] == Used(node[..pos]);
    } else {
      assert [] + Used(node[..pos]) == Used(node[..pos]);
    }
  }

  lemma UsedSome(node: seq<Node>)
    ensures |Used(node)| > 0 ==> node != []
  {}

  lemma KgcsNext(dual: bool, kgc: seq<KGC>, i: nat, done: seq<byte>)
    requires i < |kgc|
    ensures done + KgcsBytes(dual, kgc[i..]) == done + KgcBytes(dual, kgc[i]) + KgcsBytes(dual, kgc[i + 1..])
  {
    assert kgc[i..][1..] == kgc[i + 1..];
  }

  lemma KnumsNext(dual: bool, kn: seq<TValue>, i: nat, done: seq<byte>)
    requires i < |kn| && forall o <- kn :: IsNumber(o)
    ensures done + KnumsBytes(dual, kn[i..]) == done + KnumBytes(dual, kn[i]) + KnumsBytes(dual, kn[i + 1..])
  {
    assert kn[i..][1..] == kn[i + 1..];
  }

  lemma TypeLength(tp: u32)
    ensures |Encode(tp)| <= 5 && (tp < 128 ==> |Encode(tp)| == 1)
  {
    EncodeShort(tp);
  }

  lemma Joined(a: seq<byte>, b: seq<byte>, c: seq<byte>)
    ensures (a + b) + c == a + (b + c)
  {}

  lemma WroteNothing(a: seq<byte>, i: nat)
    requires i <= |a|
    ensures Wrote(a, a, i, [])
  {}
}
