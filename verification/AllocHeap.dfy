/** The whole allocator state as a value: chunks, designated victim, top, segments, bins and the
    blocks handed out, with the invariant every operation keeps. */
module Heap {
  import opened Core

  /** Addresses stay below this, so that no chunk size overflows compute_tree_index. */
  const ADDRESS_LIMIT: nat := 0x100_0000_0000
  const MIN_LARGE_SIZE: nat := 256

  datatype Segment = Segment(base: int, size: nat)

  datatype Heap = Heap(
    mem: Memory, cs: Chunks,
    dv: int, dvsize: nat, top: int, topsize: nat,
    segs: seq<Segment>,
    small: map<int, nat>, large: map<int, nat>,   // contents of the bins
    live: map<int, nat>)                          // blocks in the hands of the user: requested sizes

  ghost predicate FreeAt(h: Heap, p: int) {
    p in h.cs && h.cs[p].kind.Free?
  }

  ghost predicate DvOk(h: Heap, loose: set<int>) {
    FreeAt(h, h.dv) && h.cs[h.dv].size == h.dvsize && h.dv !in h.small && h.dv !in h.large && h.dv !in loose
  }

  /** The bins hold exactly the free chunks other than dv (and those in loose). */
  ghost predicate BinsOk(h: Heap, loose: set<int>) {
    && (forall p <- h.small :: FreeAt(h, p) && h.cs[p].size == h.small[p] && h.small[p] < MIN_LARGE_SIZE)
    && (forall p <- h.large :: FreeAt(h, p) && h.cs[p].size == h.large[p] && h.large[p] >= MIN_LARGE_SIZE)
    && (h.dvsize > 0 ==> DvOk(h, loose))
    && (forall p <- loose :: FreeAt(h, p) && p !in h.small && p !in h.large)
    && (forall p <- h.cs | h.cs[p].kind.Free? :: p in h.small || p in h.large || p in loose || (h.dvsize > 0 && p == h.dv))
  }

  ghost predicate TopOk(h: Heap) {
    && h.top in h.cs && h.cs[h.top].kind.Top? && h.cs[h.top].size == h.topsize
    && (forall p <- h.cs | h.cs[p].kind.Top? :: p == h.top)
  }

  function SegEnd(s: Segment): int {
    s.base + s.size
  }

  ghost predicate SegApart(s: Segment, t: Segment) {
    SegEnd(s) <= t.base || SegEnd(t) <= s.base
  }

  ghost predicate Inside(cs: Chunks, s: Segment, p: int)
    requires p in cs
  {
    s.base <= p && p + cs[p].size <= SegEnd(s) && (cs[p].kind.End? ==> p == SegEnd(s) - 8)
  }

  ghost predicate InSomeSegment(h: Heap, p: int)
    requires p in h.cs
  {
    exists i :: 0 <= i < |h.segs| && Inside(h.cs, h.segs[i], p)
  }

  /** The prev_foot word of the first chunk of a segment, which no other chunk owns. */
  ghost predicate FirstWord(mem: Memory, base: int) {
    forall a | base <= a < base + 8 :: a in mem
  }

  ghost predicate SegOk(h: Heap, s: Segment) {
    && 0 < s.base && s.base % 8 == 0 && s.size % 8 == 0 && s.size > TOP_FOOT_SIZE && SegEnd(s) < ADDRESS_LIMIT
    && FirstWord(h.mem, s.base) && s.base in h.cs && h.cs[s.base].pinuse && !h.cs[s.base].kind.End? && !h.cs[s.base].kind.Tail?
    && !h.cs[s.base].kind.Fence?
    && SegEnd(s) - 8 in h.cs && h.cs[SegEnd(s) - 8].kind.End?
  }

  ghost predicate SegsOk(h: Heap) {
    && h.segs != []
    && (forall i | 0 <= i < |h.segs| :: SegOk(h, h.segs[i]))
    && (forall i, j | 0 <= i < j < |h.segs| :: SegApart(h.segs[i], h.segs[j]))
    && (forall p {:trigger InSomeSegment(h, p)} | p in h.cs :: InSomeSegment(h, p))
    // top is in the most recent segment, up to its end
    && h.segs[0].base <= h.top && h.top + h.topsize + TOP_FOOT_SIZE == SegEnd(h.segs[0])
  }

  /** A block in the hands of the user is a chunk in use, big enough. */
  ghost predicate LiveOk(h: Heap) {
    forall p <- h.live :: p in h.cs && h.cs[p].kind.Used? && h.live[p] + 8 <= h.cs[p].size
  }

  ghost predicate HeapOk(h: Heap, loose: set<int>) {
    CoreOk(h.mem, h.cs) && BinsOk(h, loose) && TopOk(h) && SegsOk(h) && LiveOk(h)
  }

  // ---- What the user sees ----------------------------------------------------------------

  /** The word at a belongs to the payload of the block p: from chunk2mem(p) up to and including
      the prev_foot word of the next chunk. */
  ghost predicate InPayload(h: Heap, p: int, a: int)
    requires p in h.cs
  {
    p + 16 <= a < p + h.cs[p].size + 8
  }

  /** The blocks in `blocks` kept their place, size and content. */
  ghost predicate Kept(h: Heap, h': Heap, blocks: set<int>) {
    forall p <- blocks :: p in h.cs && p in h'.cs && h'.cs[p].size == h.cs[p].size && h'.cs[p].kind == h.cs[p].kind
      && forall a | InPayload(h, p, a) && a in h.mem :: a in h'.mem && h'.mem[a] == h.mem[a]
  }

  lemma KeptTrans(h: Heap, h': Heap, h'': Heap, blocks: set<int>)
    requires Kept(h, h', blocks) && Kept(h', h'', blocks)
    ensures Kept(h, h'', blocks)
  {}

  /** Live blocks are aligned, big enough, mapped and do not overlap. */
  lemma LiveBlocks(h: Heap, loose: set<int>, p: int, q: int)
    requires HeapOk(h, loose) && p in h.live
    ensures p in h.cs && (p + 16) % 8 == 0 && h.live[p] <= h.cs[p].size - 8
    ensures forall a | InPayload(h, p, a) :: a in h.mem
    ensures q in h.live && q != p ==> q in h.cs && !exists a :: InPayload(h, p, a) && InPayload(h, q, a)
  {
    assert ChunkOk(h.mem, h.cs, p);
  }

  // ---- Steps on the chunks -----------------------------------------------------------------

  /** Nothing of a block outside a changed range is touched. */
  lemma KeptOutside(h: Heap, h': Heap, lo: int, hi: int, blocks: set<int>)
    requires Apart(h.cs) && SameOutside(h.cs, h'.cs, lo, hi) && SameWordsOutside(h.mem, h'.mem, lo, hi)
    requires forall p <- blocks :: p in h.cs && (p < lo || p >= hi)
    ensures Kept(h, h', blocks)
  {
    forall p <- blocks
      ensures p in h'.cs && h'.cs[p].size == h.cs[p].size && h'.cs[p].kind == h.cs[p].kind
      ensures forall a | InPayload(h, p, a) && a in h.mem :: a in h'.mem && h'.mem[a] == h.mem[a]
    {
      if p < lo { assert p + h.cs[p].size <= lo; }
    }
  }

  /** h' has other chunks from lo to hi, and the same segments. */
  ghost predicate Recut(h: Heap, h': Heap, lo: int, hi: int) {
    && RangeOk(h.cs, lo, hi) && SameOutside(h.cs, h'.cs, lo, hi) && h'.segs == h.segs && h'.mem.Keys == h.mem.Keys
    && SameToPredecessor(h.cs[lo], h'.cs[lo])
    && (forall p <- h'.cs | lo <= p < hi :: !h'.cs[p].kind.End? && p + h'.cs[p].size <= hi)
  }

  lemma RecutSegs(h: Heap, h': Heap, loose: set<int>, lo: int, hi: int)
    requires HeapOk(h, loose) && Recut(h, h', lo, hi)
    requires RecutTop(h, h', lo, hi)
    ensures SegsOk(h')
  {
    var i := RangeSegment(h, loose, lo, hi);
    if hi == h.top + h.topsize { SegOfTail(h, loose, i, hi); }
    RecutAllSegs(h, h', lo, hi, i);
  }

  lemma RecutAllSegs(h: Heap, h': Heap, lo: int, hi: int, i: nat)
    requires SegsOk(h) && Recut(h, h', lo, hi)
    requires i < |h.segs| && h.segs[i].base <= lo && hi < SegEnd(h.segs[i]) - 8
    requires h'.top + h'.topsize == h.top + h.topsize
    requires (h'.top == h.top || (i == 0 && lo <= h'.top)) && h'.segs == h.segs
    ensures SegsOk(h')
  {
    hide Recut, SegOk, InSomeSegment;
    forall j | 0 <= j < |h.segs| ensures SegOk(h', h.segs[j]) {
      assert SegApart(h.segs[i], h.segs[j]) || i == j;
      RecutOneSeg(h, h', lo, hi, h.segs[i], h.segs[j]);
    }
    forall p | p in h'.cs ensures InSomeSegment(h', p) {
      assert p in h.cs ==> InSomeSegment(h, p);
      RecutInside(h, h', lo, hi, h.segs[i], p);
    }
  }

  lemma SegOfTail(h: Heap, loose: set<int>, i: nat, hi: int)
    requires HeapOk(h, loose) && i < |h.segs| && hi == h.top + h.topsize
    requires h.segs[i].base <= hi < SegEnd(h.segs[i])
    ensures i == 0
  {}

  lemma RangeSegment(h: Heap, loose: set<int>, lo: int, hi: int) returns (i: nat)
    requires HeapOk(h, loose) && RangeOk(h.cs, lo, hi)
    ensures i < |h.segs| && h.segs[i].base <= lo && hi < SegEnd(h.segs[i]) - 8
  {
    assert InSomeSegment(h, lo);
    i :| 0 <= i < |h.segs| && Inside(h.cs, h.segs[i], lo);
    assert SegOk(h, h.segs[i]);
    var e := SegEnd(h.segs[i]) - 8;
    assert e < lo || hi < e;
  }

  lemma RecutOneSeg(h: Heap, h': Heap, lo: int, hi: int, s: Segment, t: Segment)
    requires Recut(h, h', lo, hi) && SegOk(h, t) && (s == t || SegApart(s, t))
    requires s.base <= lo && hi < SegEnd(s) - 8
    ensures SegOk(h', t)
  {}

  lemma RecutInside(h: Heap, h': Heap, lo: int, hi: int, s: Segment, p: int)
    requires Recut(h, h', lo, hi) && s in h.segs && s.base <= lo && hi < SegEnd(s) - 8
    requires p in h'.cs && (p in h.cs && !(lo <= p < hi) ==> InSomeSegment(h, p))
    ensures InSomeSegment(h', p)
  {
    if lo <= p < hi {
      var i :| 0 <= i < |h.segs| && h.segs[i] == s;
      assert Inside(h'.cs, h.segs[i], p);
    } else {
      var j :| 0 <= j < |h.segs| && Inside(h.cs, h.segs[j], p);
      assert Inside(h'.cs, h.segs[j], p);
    }
  }

  lemma RecutBins(h: Heap, h': Heap, loose: set<int>, loose': set<int>, lo: int, hi: int)
    requires BinsOk(h, loose) && Recut(h, h', lo, hi)
    requires RecutLoose(h, h', loose, loose', lo, hi)
    ensures BinsOk(h', loose')
  {}

  ghost predicate RecutTop(h: Heap, h': Heap, lo: int, hi: int) {
    && h'.top + h'.topsize == h.top + h.topsize
    && h'.top in h'.cs && h'.cs[h'.top].kind.Top? && h'.cs[h'.top].size == h'.topsize
    && (h'.top == h.top || (hi == h.top + h.topsize && lo <= h'.top <= hi))
    && (forall p <- h'.cs | lo <= p < hi && h'.cs[p].kind.Top? :: p == h'.top)
    && (h'.top != h.top ==> lo <= h.top < hi)
  }

  ghost predicate RecutLoose(h: Heap, h': Heap, loose: set<int>, loose': set<int>, lo: int, hi: int) {
    && h'.small == h.small && h'.large == h.large && h'.dv == h.dv && h'.dvsize == h.dvsize
    && (forall p <- h.cs | lo <= p < hi && h.cs[p].kind.Free? :: p in loose)
    && (forall p :: p in loose' <==> if lo <= p < hi then FreeAt(h', p) else p in loose)
    && (forall p <- h'.cs | lo < p < hi && h'.cs[p].kind.Free? :: p !in h.cs)
  }

  ghost predicate RecutLive(h: Heap, h': Heap, lo: int, hi: int) {
    forall p <- h'.live ::
      if lo <= p < hi then p in h'.cs && h'.cs[p].kind.Used? && h'.live[p] + 8 <= h'.cs[p].size
      else p in h.live && h'.live[p] == h.live[p]
  }

  /** The general step: cutting a range anew, with everything that refers to chunks following. */
  lemma RecutOk(h: Heap, h': Heap, loose: set<int>, loose': set<int>, lo: int, hi: int)
    requires HeapOk(h, loose) && Recut(h, h', lo, hi) && SameWordsOutside(h.mem, h'.mem, lo, hi)
    requires CoreOk(h'.mem, h'.cs)
    requires RecutLoose(h, h', loose, loose', lo, hi) && RecutTop(h, h', lo, hi) && RecutLive(h, h', lo, hi)
    ensures HeapOk(h', loose')
    ensures forall blocks: set<int> | blocks <= h.live.Keys && (forall p <- blocks :: !(lo <= p < hi)) :: Kept(h, h', blocks)
  {
    hide *;
    RecutSegs(h, h', loose, lo, hi);
    HeapParts(h, loose);
    RecutBins(h, h', loose, loose', lo, hi);
    RecutTopOk(h, h', lo, hi);
    RecutLiveOk(h, h', lo, hi);
    HeapWhole(h', loose');
    forall blocks: set<int> | blocks <= h.live.Keys && (forall p <- blocks :: !(lo <= p < hi)) ensures Kept(h, h', blocks) {
      RecutKept(h, h', lo, hi, blocks);
    }
  }

  lemma HeapParts(h: Heap, loose: set<int>)
    requires HeapOk(h, loose)
    ensures CoreOk(h.mem, h.cs) && BinsOk(h, loose) && TopOk(h) && SegsOk(h) && LiveOk(h)
  {}

  lemma HeapWhole(h: Heap, loose: set<int>)
    requires CoreOk(h.mem, h.cs) && BinsOk(h, loose) && TopOk(h) && SegsOk(h) && LiveOk(h)
    ensures HeapOk(h, loose)
  {}

  lemma RecutKept(h: Heap, h': Heap, lo: int, hi: int, blocks: set<int>)
    requires CoreOk(h.mem, h.cs) && LiveOk(h) && Recut(h, h', lo, hi) && SameWordsOutside(h.mem, h'.mem, lo, hi)
    requires blocks <= h.live.Keys && forall p <- blocks :: !(lo <= p < hi)
    ensures Kept(h, h', blocks)
  {
    KeptOutside(h, h', lo, hi, blocks);
  }

  lemma RecutTopOk(h: Heap, h': Heap, lo: int, hi: int)
    requires TopOk(h) && Recut(h, h', lo, hi) && RecutTop(h, h', lo, hi)
    ensures TopOk(h')
  {}

  lemma RecutLiveOk(h: Heap, h': Heap, lo: int, hi: int)
    requires LiveOk(h) && Recut(h, h', lo, hi) && RecutLive(h, h', lo, hi)
    ensures LiveOk(h')
  {}

  // ---- The macros on head and foot words ---------------------------------------------------

  /** head |= PINUSE_BIT */
  function WithPinuse(w: int): int {
    if w % 2 == 1 then w else w + 1
  }

  /** head &= ~PINUSE_BIT */
  function WithoutPinuse(w: int): int {
    if w % 2 == 1 then w - 1 else w
  }

  /** What a chunk and its successor look like. */
  lemma ChunkFacts(mem: Memory, cs: Chunks, p: int, n: int)
    requires p in cs && n == p + cs[p].size && !cs[p].kind.End?
    requires CoreOk(mem, cs)
    ensures ChunkOk(mem, cs, p) && n in cs && n > p && ChunkOk(mem, cs, n)
    ensures forall q <- cs :: !(p < q < n)
    ensures HeadAt(mem, p, cs[p]) && n in mem
    ensures !cs[n].kind.End? ==> HeadAt(mem, n, cs[n])
  {
    assert ChunkOk(mem, cs, p);
    assert ChunkOk(mem, cs, n);
    assert Mapped(mem, p, cs[p].size);
  }

  lemma HeadBits(c: Chunk)
    requires SizeOk(c) && !c.kind.Tail?
    ensures WithPinuse(Head(c)) == Head(c.(pinuse := true)) && WithoutPinuse(Head(c)) == Head(c.(pinuse := false))
  {}

  ghost function LooseAfter(loose: set<int>, lo: int, hi: int, more: set<int>): set<int> {
    (set p <- loose | !(lo <= p < hi)) + more
  }

  ghost predicate LooseInside(h: Heap, loose: set<int>, lo: int, hi: int) {
    forall p <- h.cs | lo <= p < hi && h.cs[p].kind.Free? :: p in loose
  }

  ghost predicate NoTopInside(h: Heap, lo: int, hi: int) {
    !(lo <= h.top < hi)
  }

  /** Fields other than memory, chunks and top are untouched. */
  ghost predicate SameRest(h: Heap, h': Heap) {
    h' == h.(mem := h'.mem, cs := h'.cs, top := h'.top, topsize := h'.topsize)
  }

  /** One chunk of kind k in place of those from lo to hi. */
  lemma Put1Step(h: Heap, h': Heap, loose: set<int>, lo: int, hi: int, k: Kind)
    requires RangeOk(h.cs, lo, hi) && h'.cs == Put1(h.cs, lo, hi, k) && SameRest(h, h')
    requires SameWordsOutside(h.mem, h'.mem, lo, hi) && CoreOk(h'.mem, h'.cs)
    requires SameToPredecessor(h.cs[lo], Chunk(hi - lo, k, h.cs[lo].pinuse))
    requires LooseInside(h, loose, lo, hi) && forall p <- h.live :: !(lo <= p < hi)
    requires if k.Top? then lo <= h.top < hi && hi == h.top + h.topsize && h'.top == lo && h'.topsize == hi - lo
             else NoTopInside(h, lo, hi) && h'.top == h.top && h'.topsize == h.topsize
    requires HeapOk(h, loose)
    ensures HeapOk(h', LooseAfter(loose, lo, hi, if k.Free? then {lo} else {}))
    ensures Kept(h, h', h.live.Keys)
  {
    hide *;
    HeapParts(h, loose);
    SameKeys(h.mem, h'.mem, lo, hi);
    Put1Shape(h.cs, lo, hi, k);
    var loose' := LooseAfter(loose, lo, hi, if k.Free? then {lo} else {});
    Put1Recut(h, h', loose, loose', lo, hi, k);
    RecutOk(h, h', loose, loose', lo, hi);
  }

  lemma SameKeys(mem: Memory, mem': Memory, lo: int, hi: int)
    requires SameWordsOutside(mem, mem', lo, hi)
    ensures mem'.Keys == mem.Keys
  {}

  lemma Put1Recut(h: Heap, h': Heap, loose: set<int>, loose': set<int>, lo: int, hi: int, k: Kind)
    requires h'.mem.Keys == h.mem.Keys
    requires RangeOk(h.cs, lo, hi) && SameRest(h, h') && SameOutside(h.cs, h'.cs, lo, hi)
    requires (forall p <- h'.cs | lo <= p < hi :: p == lo) && h'.cs[lo] == Chunk(hi - lo, k, h.cs[lo].pinuse)
    requires SameToPredecessor(h.cs[lo], Chunk(hi - lo, k, h.cs[lo].pinuse))
    requires loose' == LooseAfter(loose, lo, hi, if k.Free? then {lo} else {})
    requires LooseInside(h, loose, lo, hi) && forall p <- h.live :: !(lo <= p < hi)
    requires if k.Top? then lo <= h.top < hi && hi == h.top + h.topsize && h'.top == lo && h'.topsize == hi - lo
             else NoTopInside(h, lo, hi) && h'.top == h.top && h'.topsize == h.topsize
    requires TopOk(h)
    ensures Recut(h, h', lo, hi) && RecutLoose(h, h', loose, loose', lo, hi)
    ensures RecutTop(h, h', lo, hi) && RecutLive(h, h', lo, hi)
  {}

  /** A chunk in use and one of kind m, meeting at mid, in place of those from lo to hi. The
      block at lo may stay in the hands of the user, if it keeps its bytes. */
  lemma Put2Step(h: Heap, h': Heap, loose: set<int>, lo: int, mid: int, hi: int, m: Kind)
    requires RangeOk(h.cs, lo, hi) && lo < mid < hi && h'.cs == Put2(h.cs, lo, mid, hi, Used, m)
    requires SameRest(h, h'.(live := h.live)) && mid !in h.cs && !m.End?
    requires SameWordsOutside(h.mem, h'.mem, lo, hi) && CoreOk(h'.mem, h'.cs)
    requires SameToPredecessor(h.cs[lo], Chunk(mid - lo, Used, h.cs[lo].pinuse))
    requires LooseInside(h, loose, lo, hi)
    requires forall p <- h'.live :: if lo <= p < hi then p == lo && h'.live[p] + 8 <= mid - lo
                                    else p in h.live && h'.live[p] == h.live[p]
    requires if m.Top? then lo <= h.top < hi && hi == h.top + h.topsize && h'.top == mid && h'.topsize == hi - mid
             else NoTopInside(h, lo, hi) && h'.top == h.top && h'.topsize == h.topsize
    requires HeapOk(h, loose)
    ensures HeapOk(h', LooseAfter(loose, lo, hi, if m.Free? then {mid} else {}))
    ensures forall blocks: set<int> | blocks <= h.live.Keys && (forall p <- blocks :: !(lo <= p < hi)) :: Kept(h, h', blocks)
  {
    hide *;
    HeapParts(h, loose);
    SameKeys(h.mem, h'.mem, lo, hi);
    Put2Shape(h.cs, lo, mid, hi, Used, m);
    var loose' := LooseAfter(loose, lo, hi, if m.Free? then {mid} else {});
    Put2Recut(h, h', loose, loose', lo, mid, hi, m);
    RecutOk(h, h', loose, loose', lo, hi);
  }

  lemma Put2Recut(h: Heap, h': Heap, loose: set<int>, loose': set<int>, lo: int, mid: int, hi: int, m: Kind)
    requires h'.mem.Keys == h.mem.Keys
    requires RangeOk(h.cs, lo, hi) && SameRest(h, h'.(live := h.live)) && SameOutside(h.cs, h'.cs, lo, hi)
    requires lo < mid < hi && mid in h'.cs && mid !in h.cs && (forall p <- h'.cs | lo <= p < hi :: p == lo || p == mid)
    requires h'.cs[lo] == Chunk(mid - lo, Used, h.cs[lo].pinuse) && h'.cs[mid] == Chunk(hi - mid, m, InUse(Used))
    requires SameToPredecessor(h.cs[lo], Chunk(mid - lo, Used, h.cs[lo].pinuse)) && !m.End?
    requires loose' == LooseAfter(loose, lo, hi, if m.Free? then {mid} else {})
    requires LooseInside(h, loose, lo, hi)
    requires forall p <- h'.live :: if lo <= p < hi then p == lo && h'.live[p] + 8 <= mid - lo
                                    else p in h.live && h'.live[p] == h.live[p]
    requires if m.Top? then lo <= h.top < hi && hi == h.top + h.topsize && h'.top == mid && h'.topsize == hi - mid
             else NoTopInside(h, lo, hi) && h'.top == h.top && h'.topsize == h.topsize
    requires TopOk(h)
    ensures Recut(h, h', lo, hi) && RecutLoose(h, h', loose, loose', lo, hi)
    ensures RecutTop(h, h', lo, hi) && RecutLive(h, h', lo, hi)
  {}

  // ---- Moving free chunks in and out of the bins ---------------------------------------------

  /** Only the bins and dv differ. */
  ghost predicate SameChunks(h: Heap, h': Heap) {
    h' == h.(small := h'.small, large := h'.large, dv := h'.dv, dvsize := h'.dvsize)
  }

  lemma Rebinned(h: Heap, h': Heap, loose: set<int>, loose': set<int>)
    requires SameChunks(h, h') && BinsOk(h', loose') && HeapOk(h, loose)
    ensures HeapOk(h', loose')
  {
    hide *;
    HeapParts(h, loose);
    SameLayout(h, h');
    SameSegs(h, h');
    SameRestOk(h, h');
    HeapWhole(h', loose');
  }

  lemma SameLayout(h: Heap, h': Heap)
    requires SameChunks(h, h')
    ensures h'.mem == h.mem && h'.cs == h.cs && h'.segs == h.segs && h'.top == h.top && h'.topsize == h.topsize
  {}

  lemma SameRestOk(h: Heap, h': Heap)
    requires TopOk(h) && LiveOk(h) && CoreOk(h.mem, h.cs) && SameChunks(h, h')
    ensures TopOk(h') && LiveOk(h') && CoreOk(h'.mem, h'.cs)
  {
    hide CoreOk;
  }

  /** Segments and top do not depend on the bins. */
  lemma SameSegs(h: Heap, h': Heap)
    requires h'.mem == h.mem && h'.cs == h.cs && h'.segs == h.segs && h'.top == h.top && h'.topsize == h.topsize
    requires SegsOk(h)
    ensures SegsOk(h')
  {
    forall i | 0 <= i < |h.segs| ensures SegOk(h', h.segs[i]) {
      assert SegOk(h, h.segs[i]);
    }
    forall p | p in h'.cs ensures InSomeSegment(h', p) {
      assert InSomeSegment(h, p);
    }
  }

  lemma Unbin(h: Heap, loose: set<int>, p: int, h': Heap)
    requires p in h.small || p in h.large
    requires h' == h.(small := h.small - {p}, large := h.large - {p}) && HeapOk(h, loose)
    ensures FreeAt(h, p) && h.cs[p].size == (if p in h.small then h.small[p] else h.large[p])
    ensures p !in loose && (p in h.small <==> h.cs[p].size < MIN_LARGE_SIZE)
    ensures HeapOk(h', loose + {p})
  {
    hide *;
    HeapParts(h, loose);
    UnbinBins(h, loose, p, h');
    Rebinned(h, h', loose, loose + {p});
  }

  lemma UnbinBins(h: Heap, loose: set<int>, p: int, h': Heap)
    requires p in h.small || p in h.large
    requires h' == h.(small := h.small - {p}, large := h.large - {p}) && BinsOk(h, loose)
    ensures FreeAt(h, p) && h.cs[p].size == (if p in h.small then h.small[p] else h.large[p])
    ensures p !in loose && (p in h.small <==> h.cs[p].size < MIN_LARGE_SIZE)
    ensures BinsOk(h', loose + {p}) && SameChunks(h, h')
  {}

  lemma Bin(h: Heap, loose: set<int>, p: int, s: nat, h': Heap)
    requires p in loose && FreeAt(h, p) && s == h.cs[p].size
    requires h' == if s < MIN_LARGE_SIZE then h.(small := h.small[p := s]) else h.(large := h.large[p := s])
    requires HeapOk(h, loose)
    ensures HeapOk(h', loose - {p})
  {
    hide *;
    HeapParts(h, loose);
    BinBins(h, loose, p, s, h');
    Rebinned(h, h', loose, loose - {p});
  }

  lemma BinBins(h: Heap, loose: set<int>, p: int, s: nat, h': Heap)
    requires p in loose && FreeAt(h, p) && s == h.cs[p].size && BinsOk(h, loose)
    requires h' == if s < MIN_LARGE_SIZE then h.(small := h.small[p := s]) else h.(large := h.large[p := s])
    ensures BinsOk(h', loose - {p}) && SameChunks(h, h')
  {}

  lemma LoosenDv(h: Heap, loose: set<int>, h': Heap)
    requires h.dvsize > 0 && h' == h.(dvsize := 0, dv := h'.dv) && HeapOk(h, loose)
    ensures FreeAt(h, h.dv) && h.cs[h.dv].size == h.dvsize && h.dv !in loose
    ensures HeapOk(h', loose + {h.dv})
  {
    hide *;
    HeapParts(h, loose);
    LoosenDvBins(h, loose, h');
    Rebinned(h, h', loose, loose + {h.dv});
  }

  lemma LoosenDvBins(h: Heap, loose: set<int>, h': Heap)
    requires h.dvsize > 0 && h' == h.(dvsize := 0, dv := h'.dv) && BinsOk(h, loose)
    ensures FreeAt(h, h.dv) && h.cs[h.dv].size == h.dvsize && h.dv !in loose
    ensures BinsOk(h', loose + {h.dv}) && SameChunks(h, h')
  {}

  lemma SetDv(h: Heap, loose: set<int>, p: int, h': Heap)
    requires h.dvsize == 0 && p in loose && FreeAt(h, p) && h.cs[p].size > 0
    requires h' == h.(dv := p, dvsize := h.cs[p].size)
    requires HeapOk(h, loose)
    ensures HeapOk(h', loose - {p})
  {
    hide *;
    HeapParts(h, loose);
    SetDvBins(h, loose, p, h');
    Rebinned(h, h', loose, loose - {p});
  }

  lemma SetDvBins(h: Heap, loose: set<int>, p: int, h': Heap)
    requires h.dvsize == 0 && p in loose && FreeAt(h, p) && h.cs[p].size > 0
    requires h' == h.(dv := p, dvsize := h.cs[p].size)
    requires BinsOk(h, loose)
    ensures BinsOk(h', loose - {p}) && SameChunks(h, h')
  {}
}
