/** The dump reader. */
module Reader {
  import opened Powers
  import opened Uleb
  import opened Values
  import opened Dump
  import opened Undump

  /** The outcome of a method, and what it left, are those of a function on what was there. */
  ghost predicate Gives<T>(want: Outcome<(T, seq<byte>)>, got: Outcome<T>, rest: seq<byte>) {
    match want
    case Done((v, left)) => got == Done(v) && rest == left
    case Failed(f) => got == Failed(f)
  }

  /** The same, with the stack of prototypes. */
  ghost predicate GivesStack<T>(want: Outcome<(T, seq<byte>, seq<Proto>)>, got: Outcome<T>, rest: seq<byte>, stack: seq<Proto>) {
    match want
    case Done((v, left, stack1)) => got == Done(v) && rest == left && stack == stack1
    case Failed(f) => got == Failed(f)
  }

  // ---- Numbers --------------------------------------------------------------------------

  lemma {:induction false} ValueNext(s: seq<byte>, k: nat)
    requires k < |s|
    ensures Value(s[..k + 1]) == Value(s[..k]) + s[k] % 128 * Pow2(7 * k)
  {
    if k == 0 {
      assert s[..1][1..] == [] && s[..0] == [];
    } else {
      ValueNext(s[1..], k - 1);
      assert s[..k + 1][1..] == s[1..][..k] && s[..k][1..] == s[1..][..k - 1];
      Pow2Seven();
      Pow2Add(7, 7 * (k - 1));
      Regroup(s[k] % 128, Pow2(7 * (k - 1)), Pow2(7 * k));
    }
  }

  lemma Regroup(a: nat, b: nat, c: nat)
    requires c == 128 * b
    ensures 128 * (a * b) == a * c
  {}

  lemma {:induction false} ValueBelow(s: seq<byte>)
    ensures Value(s) < Pow2(7 * |s|)
    decreases |s|
  {
    if s != [] {
      ValueBelow(s[1..]);
      Pow2Seven();
      Pow2Add(7, 7 * (|s| - 1));
    }
  }

  lemma {:induction false} ExtentAt(s: seq<byte>, k: nat)
    requires k < |s| && s[k] < 128 && forall i | 0 <= i < k :: s[i] >= 128
    ensures Extent(s) == k + 1
  {
    if k > 0 {
      ExtentAt(s[1..], k - 1);
    }
  }

  lemma {:induction false} ExtentBeyond(s: seq<byte>, k: nat)
    requires k <= |s| && forall i | 0 <= i < k :: s[i] >= 128
    ensures Extent(s) == 0 || Extent(s) > k
  {}

  lemma Halved(v: nat, b: nat, k: nat)
    requires k >= 1
    ensures (v + b * Pow2(7 * k)) / 2 == v / 2 + b * Pow2(7 * k - 1)
  {
    assert Pow2(7 * k) == 2 * Pow2(7 * k - 1);
    Regroup2(b, Pow2(7 * k - 1), Pow2(7 * k));
  }

  lemma Regroup2(a: nat, b: nat, c: nat)
    requires c == 2 * b
    ensures 2 * (a * b) == a * c
  {}

  lemma ModAdd(a: nat, b: nat)
    ensures (a % U32_RANGE + b) % U32_RANGE == (a + b) % U32_RANGE
  {
    AddMultiple(a % U32_RANGE + b, a / U32_RANGE, U32_RANGE);
  }

  /** k bytes were read, all but perhaps the last with the top bit, and v is what they make. */
  ghost predicate Scanned(s: seq<byte>, k: nat, v: u32, half: bool) {
    && 0 < k <= |s| && k <= 5 && (forall i | 0 <= i < k - 1 :: s[i] >= 128)
    && v == (if half then Value(s[..k]) / 2 else Value(s[..k])) % U32_RANGE
  }

  /** The next seven bits. They are above those in v, so that the source's or is a sum. */
  function Shifted(v: u32, b: byte, sh: nat): u32 {
    (v + b % 128 * Pow2(sh)) % U32_RANGE
  }

  lemma ScanFirst(s: seq<byte>, half: bool)
    requires s != []
    ensures Scanned(s, 1, if half then s[0] % 128 / 2 else s[0] % 128, half)
  {
    assert s[..1][1..] == [];
  }

  lemma ScanNext(s: seq<byte>, k: nat, v: u32, half: bool)
    requires Scanned(s, k, v, half) && k < 5 && k < |s| && s[k - 1] >= 128
    ensures Scanned(s, k + 1, Shifted(v, s[k], if half then 7 * k - 1 else 7 * k), half)
  {
    hide Value;
    ValueNext(s, k);
    var b := s[k] % 128;
    if half {
      Halved(Value(s[..k]), b, k);
      ModAdd(Value(s[..k]) / 2, b * Pow2(7 * k - 1));
    } else {
      ModAdd(Value(s[..k]), b * Pow2(7 * k));
    }
  }

  lemma ScanFails(s: seq<byte>, k: nat, v: u32, half: bool)
    requires Scanned(s, k, v, half) && s[k - 1] >= 128 && (k == |s| || k == 5)
    ensures ReadUleb(s) == Failed(Overrun) && ReadUleb33(s) == Failed(Overrun)
  {
    ExtentBeyond(s, k);
  }

  lemma ScanDone(s: seq<byte>, k: nat, v: u32, half: bool)
    requires Scanned(s, k, v, half) && s[k - 1] < 128
    ensures half ==> ReadUleb33(s) == Done((v, s[k..]))
    ensures !half ==> ReadUleb(s) == Done((v, s[k..]))
  {
    ExtentAt(s, k - 1);
  }

  // ---- Loops that read so many items --------------------------------------------------------

  /** The items so far, and those that will be read from here. */
  ghost predicate ArrayGoes(dual: bool, s: seq<byte>, n: nat, arr: seq<TValue>, rest: seq<byte>, left: nat) {
    match ReadArray(dual, rest, left)
    case Done((more, end)) => ReadArray(dual, s, n) == Done((arr + more, end))
    case Failed(f) => ReadArray(dual, s, n) == Failed(f)
  }

  lemma NoMoreValues(dual: bool, s: seq<byte>, n: nat)
    ensures ArrayGoes(dual, s, n, [], s, n)
  {
    hide ReadArray;
    if ReadArray(dual, s, n).Done? {
      assert [] + ReadArray(dual, s, n).value.0 == ReadArray(dual, s, n).value.0;
    }
  }

  lemma ArrayStep(dual: bool, s: seq<byte>, n: nat, arr: seq<TValue>, rest: seq<byte>, left: nat)
    requires ArrayGoes(dual, s, n, arr, rest, left) && left > 0
    ensures match ReadKtabk(dual, rest)
      case Done((o, rest1)) => ArrayGoes(dual, s, n, arr + [o], rest1, left - 1)
      case Failed(f) => ReadArray(dual, s, n) == Failed(f)
  {
    hide ReadKtabk;
    match ReadKtabk(dual, rest)
    case Failed(_) =>
    case Done((o, rest1)) =>
      match ReadArray(dual, rest1, left - 1)
      case Failed(_) =>
      case Done((more, end)) => assert arr + ([o] + more) == (arr + [o]) + more;
  }

  lemma ArrayEnds(dual: bool, s: seq<byte>, n: nat, arr: seq<TValue>, rest: seq<byte>)
    requires ArrayGoes(dual, s, n, arr, rest, 0)
    ensures ReadArray(dual, s, n) == Done((arr, rest))
  {
    assert ReadArray(dual, rest, 0) == Done(([], rest)) && arr + [] == arr;
  }

  ghost predicate KnumGoes(dual: bool, s: seq<byte>, n: nat, kn: seq<TValue>, rest: seq<byte>, left: nat) {
    match ReadKnums(dual, rest, left)
    case Done((more, end)) => ReadKnums(dual, s, n) == Done((kn + more, end))
    case Failed(f) => ReadKnums(dual, s, n) == Failed(f)
  }

  lemma NoMoreKnums(dual: bool, s: seq<byte>, n: nat)
    ensures KnumGoes(dual, s, n, [], s, n)
  {
    hide ReadKnums;
    if ReadKnums(dual, s, n).Done? {
      assert [] + ReadKnums(dual, s, n).value.0 == ReadKnums(dual, s, n).value.0;
    }
  }

  lemma KnumStep(dual: bool, s: seq<byte>, n: nat, kn: seq<TValue>, rest: seq<byte>, left: nat)
    requires KnumGoes(dual, s, n, kn, rest, left) && left > 0
    ensures match ReadKnum(dual, rest)
      case Done((o, rest1)) => KnumGoes(dual, s, n, kn + [o], rest1, left - 1)
      case Failed(f) => ReadKnums(dual, s, n) == Failed(f)
  {
    hide ReadKnum;
    match ReadKnum(dual, rest)
    case Failed(_) =>
    case Done((o, rest1)) =>
      match ReadKnums(dual, rest1, left - 1)
      case Failed(_) =>
      case Done((more, end)) => assert kn + ([o] + more) == (kn + [o]) + more;
  }

  lemma KnumEnds(dual: bool, s: seq<byte>, n: nat, kn: seq<TValue>, rest: seq<byte>)
    requires KnumGoes(dual, s, n, kn, rest, 0)
    ensures ReadKnums(dual, s, n) == Done((kn, rest))
  {
    assert ReadKnums(dual, rest, 0) == Done(([], rest)) && kn + [] == kn;
  }

  ghost predicate KgcGoes(dual: bool, s: seq<byte>, n: nat, stack0: seq<Proto>, kgc: seq<KGC>, rest: seq<byte>, left: nat, stack: seq<Proto>) {
    match ReadKgcs(dual, rest, left, stack)
    case Done((more, end, stack1)) => ReadKgcs(dual, s, n, stack0) == Done((kgc + more, end, stack1))
    case Failed(f) => ReadKgcs(dual, s, n, stack0) == Failed(f)
  }

  lemma NoMoreKgcs(dual: bool, s: seq<byte>, n: nat, stack: seq<Proto>)
    ensures KgcGoes(dual, s, n, stack, [], s, n, stack)
  {
    hide ReadKgcs;
    if ReadKgcs(dual, s, n, stack).Done? {
      assert [] + ReadKgcs(dual, s, n, stack).value.0 == ReadKgcs(dual, s, n, stack).value.0;
    }
  }

  lemma KgcStep(dual: bool, s: seq<byte>, n: nat, stack0: seq<Proto>, kgc: seq<KGC>, rest: seq<byte>, left: nat, stack: seq<Proto>)
    requires KgcGoes(dual, s, n, stack0, kgc, rest, left, stack) && left > 0
    ensures match ReadKgc(dual, rest, stack)
      case Done((c, rest1, stack1)) => KgcGoes(dual, s, n, stack0, kgc + [c], rest1, left - 1, stack1)
      case Failed(f) => ReadKgcs(dual, s, n, stack0) == Failed(f)
  {
    hide ReadKgc;
    match ReadKgc(dual, rest, stack)
    case Failed(_) =>
    case Done((c, rest1, stack1)) =>
      match ReadKgcs(dual, rest1, left - 1, stack1)
      case Failed(_) =>
      case Done((more, end, stack2)) => assert kgc + ([c] + more) == (kgc + [c]) + more;
  }

  lemma KgcEnds(dual: bool, s: seq<byte>, n: nat, stack0: seq<Proto>, kgc: seq<KGC>, rest: seq<byte>, stack: seq<Proto>)
    requires KgcGoes(dual, s, n, stack0, kgc, rest, 0, stack)
    ensures ReadKgcs(dual, s, n, stack0) == Done((kgc, rest, stack))
  {
    assert ReadKgcs(dual, rest, 0, stack) == Done(([], rest, stack)) && kgc + [] == kgc;
  }

  lemma Behind(s: seq<byte>, p: nat, q: nat)
    requires p <= q <= |s|
    ensures s[p..][q - p..] == s[q..]
  {}

  class LexState {
    const dual: bool
    const input: seq<byte>
    var p: nat
    var n: nat                    // bytes left
    var stack: seq<Proto>         // the Lua stack above its old top

    constructor (dual: bool, input: seq<byte>)
      ensures Valid() && Rest() == input && stack == [] && this.dual == dual && this.input == input
    {
      this.dual, this.input := dual, input;
      p, n, stack := 0, |input|, [];
    }

    ghost predicate Valid()
      reads this`p, this`n
    {
      p + n == |input|
    }

    ghost function Rest(): seq<byte>
      requires Valid()
      reads this`p, this`n
    {
      input[p..]
    }

    /** bcread_uleb128 */
    method Uleb128() returns (r: Outcome<u32>)
      requires Valid()
      modifies this`p, this`n
      ensures Valid() && Gives(ReadUleb(old(Rest())), r, Rest())
    {
      hide Value, Scanned, Shifted, ReadUleb, ReadUleb33;
      ghost var s := Rest();
      if n == 0 {
        NoBytes();
        return Failed(Overrun);
      }
      var q, b := p, input[p];
      ScanFirst(s, false);
      var v: u32 := b;
      q := q + 1;
      n := n - 1;
      if v >= 0x80 {
        var sh := 0;
        v := v % 0x80;
        while b >= 0x80
          invariant p < q <= |input| && q + n == |input| && sh == 7 * (q - p - 1)
          invariant s == input[p..] && p == old(p) && b == s[q - p - 1]
          invariant Scanned(s, q - p, v, false) && q - p <= 5
          decreases n
        {
          if n == 0 || sh + 7 >= 32 {
            ScanFails(s, q - p, v, false);
            p := q;
            return Failed(Overrun);
          }
          b := input[q];
          sh := sh + 7;
          ScanNext(s, q - p, v, false);
          v := Shifted(v, b, sh);
          q := q + 1;
          n := n - 1;
        }
      }
      ScanDone(s, q - p, v, false);
      Behind(input, p, q);
      p := q;
      r := Done(v);
    }

    /** bcread_uleb128_33 */
    method Uleb33() returns (r: Outcome<u32>)
      requires Valid()
      modifies this`p, this`n
      ensures Valid() && Gives(ReadUleb33(old(Rest())), r, Rest())
    {
      hide Value, Scanned, Shifted, ReadUleb, ReadUleb33;
      ghost var s := Rest();
      if n == 0 {
        NoBytes();
        return Failed(Overrun);
      }
      var q, b := p, input[p];
      ScanFirst(s, true);
      var v: u32 := b / 2;
      q := q + 1;
      n := n - 1;
      if v >= 0x40 {
        var sh := -1;
        v := v % 0x40;
        while b >= 0x80
          invariant p < q <= |input| && q + n == |input| && sh == 7 * (q - p - 1) - 1
          invariant s == input[p..] && p == old(p) && b == s[q - p - 1]
          invariant Scanned(s, q - p, v, true) && q - p <= 5
          decreases n
        {
          if n == 0 || sh + 7 >= 32 {
            ScanFails(s, q - p, v, true);
            p := q;
            return Failed(Overrun);
          }
          b := input[q];
          sh := sh + 7;
          ScanNext(s, q - p, v, true);
          v := Shifted(v, b, sh);
          q := q + 1;
          n := n - 1;
        }
      }
      ScanDone(s, q - p, v, true);
      Behind(input, p, q);
      p := q;
      r := Done(v);
    }

    lemma NoBytes()
      requires Valid() && n == 0
      ensures ReadUleb(Rest()) == Failed(Overrun) && ReadUleb33(Rest()) == Failed(Overrun)
    {}

    /** bcread_mem */
    method Mem(len: nat) returns (r: Outcome<seq<byte>>)
      requires Valid()
      modifies this`p, this`n
      ensures Valid() && Gives(ReadMem(old(Rest()), len), r, Rest())
    {
      if n < len {
        return Failed(Overrun);
      }
      r := Done(input[p..p + len]);
      assert Rest()[..len] == input[p..p + len] && Rest()[len..] == input[p + len..];
      p, n := p + len, n - len;
    }

    method Words() returns (r: Outcome<(u32, u32)>)
      requires Valid()
      modifies this`p, this`n
      ensures Valid() && Gives(ReadPair(old(Rest())), r, Rest())
    {
      hide ReadUleb;
      var lo :- Uleb128();
      var hi :- Uleb128();
      r := Done((lo, hi));
    }

    // ---- Template tables --------------------------------------------------------------------

    /** bcread_ktabk */
    method Ktabk() returns (r: Outcome<TValue>)
      requires Valid()
      modifies this`p, this`n
      ensures Valid() && Gives(ReadKtabk(dual, old(Rest())), r, Rest())
    {
      hide ReadUleb, ReadMem, ReadPair, SetInt, LexState.Rest;
      var tp :- Uleb128();
      if tp >= BCDUMP_KTAB_STR {
        var chars :- Mem(tp - BCDUMP_KTAB_STR);
        r := Done(Str(chars));
      } else if tp == BCDUMP_KTAB_INT {
        var k :- Uleb128();
        r := Done(SetInt(dual, I32(k)));
      } else if tp == BCDUMP_KTAB_NUM {
        var w :- Words();
        r := Done(Num(w.0, w.1));
      } else {
        r := Done(if tp == BCDUMP_KTAB_NIL then Nil else if tp == BCDUMP_KTAB_FALSE then False else True);
      }
    }

    /** bcread_ktab */
    method Ktab() returns (r: Outcome<Table>)
      requires Valid()
      modifies this`p, this`n
      ensures Valid() && Gives(ReadKtab(dual, old(Rest())), r, Rest())
    {
      hide ReadUleb, ReadArray, ReadHash, LexState.Rest;
      var narray :- Uleb128();
      var nhash :- Uleb128();
      var arr :- ArrayEntries(narray);
      r := HashEntries(nhash, arr);
    }

    method ArrayEntries(narray: nat) returns (r: Outcome<seq<TValue>>)
      requires Valid()
      modifies this`p, this`n
      ensures Valid() && Gives(ReadArray(dual, old(Rest()), narray), r, Rest())
    {
      hide ReadKtabk, LexState.Rest, ReadArray;
      ghost var s := Rest();
      var arr: seq<TValue> := [];
      var i := 0;
      NoMoreValues(dual, s, narray);
      while i < narray
        invariant 0 <= i <= narray && Valid() && ArrayGoes(dual, s, narray, arr, Rest(), narray - i)
      {
        ArrayStep(dual, s, narray, arr, Rest(), narray - i);
        var o :- Ktabk();
        arr := arr + [o];
        i := i + 1;
      }
      ArrayEnds(dual, s, narray, arr, Rest());
      r := Done(arr);
    }

    method HashEntries(nhash: nat, arr: seq<TValue>) returns (r: Outcome<Table>)
      requires Valid()
      modifies this`p, this`n
      ensures Valid() && Gives(ReadHash(dual, old(Rest()), nhash, Table(arr, [])), r, Rest())
    {
      hide ReadKtabk, LexState.Rest, SetTab;
      var t := Table(arr, []);
      ghost var s := Rest();
      var i := 0;
      while i < nhash
        invariant 0 <= i <= nhash && Valid() && ReadHash(dual, s, nhash, Table(arr, [])) == ReadHash(dual, Rest(), nhash - i, t)
      {
        var key :- Ktabk();
        var val :- Ktabk();
        t :- SetTab(dual, t, key, val);
        i := i + 1;
      }
      r := Done(t);
    }

    // ---- Constants --------------------------------------------------------------------------

    /** bcread_kgc */
    method Kgc(sizekgc: nat) returns (r: Outcome<seq<KGC>>)
      requires Valid()
      modifies this`p, this`n, this`stack
      ensures Valid() && GivesStack(ReadKgcs(dual, old(Rest()), sizekgc, old(stack)), r, Rest(), stack)
    {
      hide ReadKgc, LexState.Rest, ReadKgcs;
      ghost var s, stack0 := Rest(), stack;
      var kgc: seq<KGC> := [];
      var i := 0;
      NoMoreKgcs(dual, s, sizekgc, stack0);
      while i < sizekgc
        invariant 0 <= i <= sizekgc && Valid() && KgcGoes(dual, s, sizekgc, stack0, kgc, Rest(), sizekgc - i, stack)
      {
        KgcStep(dual, s, sizekgc, stack0, kgc, Rest(), sizekgc - i, stack);
        var c :- Constant();
        kgc := kgc + [c];
        i := i + 1;
      }
      KgcEnds(dual, s, sizekgc, stack0, kgc, Rest(), stack);
      r := Done(kgc);
    }

    /** One constant of bcread_kgc */
    method Constant() returns (r: Outcome<KGC>)
      requires Valid()
      modifies this`p, this`n, this`stack
      ensures Valid() && GivesStack(ReadKgc(dual, old(Rest()), old(stack)), r, Rest(), stack)
    {
      hide ReadUleb, ReadMem, ReadPair, ReadKtab, LexState.Rest;
      var tp :- Uleb128();
      if tp >= BCDUMP_KGC_STR {
        var chars :- Mem(tp - BCDUMP_KGC_STR);
        r := Done(KStr(chars));
      } else if tp == BCDUMP_KGC_TAB {
        var t :- Ktab();
        r := Done(KTab(t));
      } else if tp != BCDUMP_KGC_CHILD {
        var w :- Words();
        if tp == BCDUMP_KGC_COMPLEX {
          var im :- Words();
          r := Done(KComplex(w.0, w.1, im.0, im.1));
        } else {
          r := Done(if tp == BCDUMP_KGC_I64 then KI64(w.0, w.1) else KU64(w.0, w.1));
        }
      } else {
        if |stack| == 0 {
          return Failed(BadDump);
        }
        var child := stack[|stack| - 1];
        stack := stack[..|stack| - 1];
        r := Done(KChild(child));
      }
    }

    /** bcread_knum */
    method Knum(sizekn: nat) returns (r: Outcome<seq<TValue>>)
      requires Valid()
      modifies this`p, this`n
      ensures Valid() && Gives(ReadKnums(dual, old(Rest()), sizekn), r, Rest())
    {
      hide ReadKnum, LexState.Rest, ReadKnums;
      ghost var s := Rest();
      var kn: seq<TValue> := [];
      var i := 0;
      NoMoreKnums(dual, s, sizekn);
      while i < sizekn
        invariant 0 <= i <= sizekn && Valid() && KnumGoes(dual, s, sizekn, kn, Rest(), sizekn - i)
      {
        KnumStep(dual, s, sizekn, kn, Rest(), sizekn - i);
        var o :- OneNumber();
        kn := kn + [o];
        i := i + 1;
      }
      KnumEnds(dual, s, sizekn, kn, Rest());
      r := Done(kn);
    }

    method OneNumber() returns (r: Outcome<TValue>)
      requires Valid()
      modifies this`p, this`n
      ensures Valid() && Gives(ReadKnum(dual, old(Rest())), r, Rest())
    {
      hide ReadUleb, ReadUleb33, SetInt;
      if n == 0 {
        return Failed(Overrun);
      }
      var isnum := input[p] % 2 == 1;
      var lo :- Uleb33();
      if isnum {
        var hi :- Uleb128();
        r := Done(Num(lo, hi));
      } else {
        r := Done(SetInt(dual, I32(lo)));
      }
    }

    // ---- Prototypes -------------------------------------------------------------------------

    method Head(strip: bool) returns (r: Outcome<Undump.Head>)
      requires Valid()
      modifies this`p, this`n
      ensures Valid() && Gives(ReadHead(strip, old(Rest())), r, Rest())
    {
      hide ReadUleb, ReadMem, ReadPair, LexState.Rest;
      var b :- Mem(4);
      FourBytes(b);
      var sizekgc :- Uleb128();
      var sizekn :- Uleb128();
      var nbc :- Uleb128();
      var sizedbg, firstline, numline := 0, 0, 0;
      if !strip {
        sizedbg :- Uleb128();
        if sizedbg != 0 {
          var lines :- Words();
          firstline, numline := lines.0, lines.1;
        }
      }
      r := Done(Undump.Head.Head(b[0], b[1], b[2], b[3], sizekgc, sizekn, nbc, sizedbg, firstline, numline));
    }

    /** What follows the head of a prototype in bcread_proto. */
    method Body(h: Undump.Head) returns (r: Outcome<Proto>)
      requires Valid()
      modifies this`p, this`n, this`stack
      ensures Valid() && GivesStack(ReadBody(dual, h, old(Rest()), old(stack)), r, Rest(), stack)
    {
      hide ReadMem, ReadKgcs, ReadKnums, LexState.Rest;
      var bc :- Mem(4 * h.nbc % U32_RANGE);
      var uv :- Mem(2 * h.sizeuv);
      var kgc :- Kgc(h.sizekgc);
      var kn :- Knum(h.sizekn);
      var dbg :- Mem(h.sizedbg);
      r := Done(Proto(h.flags, h.numparams, h.framesize, bc, uv, kgc, kn, h.firstline, h.numline, dbg));
    }

    /** bcread_proto: None at the end of the dump */
    method ReadOne(strip: bool) returns (r: Outcome<Option<Proto>>)
      requires Valid()
      modifies this`p, this`n, this`stack
      ensures Valid()
      ensures match ReadProto(dual, strip, old(Rest()), old(stack))
        case Done(End(rest)) => r == Done(None) && Rest() == rest && stack == old(stack)
        case Done(One(proto, rest, stack1)) => r == Done(Some(proto)) && Rest() == rest && stack == stack1 && n < old(n)
        case Failed(f) => r == Failed(f)
    {
      hide ReadUleb, ReadHead, ReadBody;
      if n > 0 && input[p] == 0 {
        n, p := n - 1, p + 1;
        return Done(None);
      }
      var len :- Uleb128();
      if len == 0 {
        return Done(None);
      }
      if n < len {
        return Failed(BadDump);
      }
      var startn := n;
      var h :- Head(strip);
      var pt :- Body(h);
      if len != startn - n {
        return Failed(BadDump);
      }
      r := Done(Some(pt));
    }

    /** bcread_header: whether debug info was stripped, and the name of the chunk */
    method Header(chunkarg: seq<byte>) returns (r: Outcome<(bool, seq<byte>)>)
      requires Valid()
      modifies this`p, this`n
      ensures Valid()
      ensures match ReadHeader(old(Rest()), chunkarg)
        case Done((strip, name, rest)) => r == Done((strip, name)) && Rest() == rest
        case Failed(f) => r == Failed(f)
    {
      hide ReadUleb, ReadMem;
      var b :- Mem(3);
      ThreeBytes(b);
      if b[0] != BCDUMP_HEAD2 || b[1] != BCDUMP_HEAD3 || b[2] != BCDUMP_VERSION {
        return Failed(BadFormat);
      }
      var flags :- Uleb128();
      if flags >= 2 * BCDUMP_F_FFI {
        return Failed(BadFormat);
      }
      if flags % 2 == BCDUMP_F_BE {
        return Failed(Foreign);
      }
      if flags / BCDUMP_F_STRIP % 2 == 1 {
        return Done((true, chunkarg));
      }
      var len :- Uleb128();
      if n < len {
        return Failed(BadDump);
      }
      r := Done((false, input[p..p + len]));
      assert Rest()[..len] == input[p..p + len] && Rest()[len..] == input[p + len..];
      p, n := p + len, n - len;
    }

    /** lj_bcread, after the first byte of the dump */
    method Read(chunkarg: seq<byte>) returns (r: Outcome<(Proto, seq<byte>)>)
      requires Valid() && stack == []
      modifies this
      ensures r == ReadDump(dual, old(Rest()), chunkarg)
    {
      hide ReadHeader, ReadProto;
      var h :- Header(chunkarg);
      var strip, name := h.0, h.1;
      ghost var s := Rest();
      while true
        invariant Valid() && ReadProtos(dual, strip, s, []) == ReadProtos(dual, strip, Rest(), stack)
        decreases n
      {
        var pt :- ReadOne(strip);
        if pt.None? {
          break;
        }
        stack := stack + [pt.value];
      }
      if n > 0 || |stack| != 1 {
        return Failed(BadDump);
      }
      r := Done((stack[0], name));
      stack := [];
    }
  }

  lemma FourBytes(b: seq<byte>)
    ensures forall s :: ReadMem(s, 4).Done? && ReadMem(s, 4).value.0 == b ==> |b| == 4
  {}

  lemma ThreeBytes(b: seq<byte>)
    ensures forall s :: ReadMem(s, 3).Done? && ReadMem(s, 3).value.0 == b ==> |b| == 3
  {}
}
