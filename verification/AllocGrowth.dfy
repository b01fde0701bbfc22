/** Heap growth: what a fresh region from the system becomes (append, prepend, add_segment). */
module Growth {
  import opened Core
  import opened Heap
  import opened Steps

  /** The chunks from lo to before hi are replaced by those at the addresses in news, here or
      elsewhere; all others stay, but the pinuse bit of one at hi may change. */
  ghost predicate Replaced(cs: Chunks, cs': Chunks, lo: int, hi: int, news: set<int>) {
    && lo <= hi && lo in cs
    && (forall p <- cs | lo <= p < hi :: p + cs[p].size <= hi)
    && (forall p <- cs' :: p in news || (p in cs && !(lo <= p < hi)))
    && (forall p <- news :: p in cs')
    && (forall p <- cs | !(lo <= p < hi) :: p in cs' && p !in news)
    && (forall p <- cs | !(lo <= p < hi) && p != hi :: cs'[p] == cs[p])
    && (hi in cs ==> cs'[hi].size == cs[hi].size && cs'[hi].kind == cs[hi].kind)
    // the chunk in front of the range does not notice
    && (forall p <- cs | p < lo && !cs[p].kind.End? && p + cs[p].size == lo ::
          lo < hi && lo in cs' && SameToPredecessor(cs[lo], cs'[lo]))
    && (if lo == hi then forall p <- cs | p < lo :: p + cs[p].size + 8 <= lo else lo + 8 <= hi)
  }

  ghost predicate WordsKept(mem: Memory, mem': Memory, cs: Chunks, lo: int, hi: int) {
    && mem.Keys <= mem'.Keys
    && forall a <- mem | (a < lo + 8 && a != hi) || a > hi + 8 || (hi !in cs && a >= hi) :: mem'[a] == mem[a]
  }

  ghost predicate NewsApart(cs: Chunks, news: set<int>) {
    forall p, q | p in news && q in cs && p in cs :: (p < q ==> p + cs[p].size <= q) && (q < p ==> q + cs[q].size <= p)
  }

  lemma ReplacedApart(cs: Chunks, cs': Chunks, lo: int, hi: int, news: set<int>)
    requires Apart(cs) && Replaced(cs, cs', lo, hi, news) && NewsApart(cs', news)
    ensures Apart(cs')
  {
    forall p, q | p in cs' && q in cs' && p < q ensures p + cs'[p].size <= q {
      if p !in news && q !in news {
        assert p + cs[p].size <= q;
      }
    }
  }

  lemma KeptChunk(mem: Memory, cs: Chunks, mem': Memory, cs': Chunks, lo: int, hi: int, news: set<int>, p: int)
    requires Apart(cs) && Replaced(cs, cs', lo, hi, news) && WordsKept(mem, mem', cs, lo, hi)
    requires p in cs && !(lo <= p < hi) && p != hi && ChunkOk(mem, cs, p)
    requires hi in cs ==> SizeOk(cs[hi])
    ensures ChunkOk(mem', cs', p)
  {
    var c, n := cs[p], p + cs[p].size;
    assert Mapped(mem, p, c.size) ==> Mapped(mem', p, c.size);
    if p < lo {
      assert n <= lo;
      if c.kind.Used? && !c.pinuse { assert p - mem[p] < lo; }
    } else {
      if c.kind.Used? && !c.pinuse {
        var q := p - mem[p];
        assert q + cs[q].size == p;
        assert q >= hi;
      }
    }
  }

  lemma ReplacedOk(mem: Memory, cs: Chunks, mem': Memory, cs': Chunks, lo: int, hi: int, news: set<int>)
    requires CoreOk(mem, cs) && Replaced(cs, cs', lo, hi, news) && WordsKept(mem, mem', cs, lo, hi)
    requires NewsApart(cs', news)
    requires forall p <- news :: p in cs' && ChunkOk(mem', cs', p)
    requires hi in cs ==> ChunkOk(mem', cs', hi)
    ensures CoreOk(mem', cs')
  {
    ReplacedApart(cs, cs', lo, hi, news);
    forall p <- cs' ensures ChunkOk(mem', cs', p) {
      if p !in news && p != hi {
        assert hi in cs ==> ChunkOk(mem, cs, hi);
        KeptChunk(mem, cs, mem', cs', lo, hi, news, p);
      }
    }
  }

  /** Everything but the segments after a replacement: bins, top, blocks. */
  lemma ReplacedRest(h: Heap, h': Heap, loose: set<int>, loose': set<int>, lo: int, hi: int, news: set<int>)
    requires Replaced(h.cs, h'.cs, lo, hi, news) && WordsKept(h.mem, h'.mem, h.cs, lo, hi)
    requires h'.small == h.small && h'.large == h.large && h'.dv == h.dv && h'.dvsize == h.dvsize && h'.live == h.live
    requires forall p <- h.cs | lo <= p < hi && h.cs[p].kind.Free? :: p in loose
    requires forall p :: p in loose' <==> if p in news then FreeAt(h', p) else p in loose && !(lo <= p < hi)
    requires forall p <- news :: p in h.cs ==> lo <= p < hi
    requires forall p <- h.cs | lo <= p < hi :: !h.cs[p].kind.Used?
    requires h'.top in h'.cs && h'.cs[h'.top].kind.Top? && h'.cs[h'.top].size == h'.topsize
    requires forall p <- news | h'.cs[p].kind.Top? :: p == h'.top
    requires h'.top != h.top ==> lo <= h.top < hi
    requires CoreOk(h.mem, h.cs) && BinsOk(h, loose) && TopOk(h) && LiveOk(h)
    ensures BinsOk(h', loose') && TopOk(h') && LiveOk(h') && Kept(h, h', h.live.Keys)
  {
    hide *;
    ReplacedBins(h, h', loose, loose', lo, hi, news);
    AllApart(h.mem, h.cs);
    ReplacedKept(h, h', lo, hi, news);
    ReplacedTopOk(h, h', lo, hi, news);
    StillLive(h, h');
  }

  lemma AllApart(mem: Memory, cs: Chunks)
    requires CoreOk(mem, cs)
    ensures Apart(cs)
  {}

  lemma ReplacedTopOk(h: Heap, h': Heap, lo: int, hi: int, news: set<int>)
    requires Replaced(h.cs, h'.cs, lo, hi, news) && TopOk(h)
    requires h'.top in h'.cs && h'.cs[h'.top].kind.Top? && h'.cs[h'.top].size == h'.topsize
    requires forall p <- news | h'.cs[p].kind.Top? :: p == h'.top
    requires h'.top != h.top ==> lo <= h.top < hi
    ensures TopOk(h')
  {}

  lemma StillLive(h: Heap, h': Heap)
    requires LiveOk(h) && Kept(h, h', h.live.Keys) && h'.live == h.live
    ensures LiveOk(h')
  {}

  lemma ReplacedBins(h: Heap, h': Heap, loose: set<int>, loose': set<int>, lo: int, hi: int, news: set<int>)
    requires Replaced(h.cs, h'.cs, lo, hi, news)
    requires h'.small == h.small && h'.large == h.large && h'.dv == h.dv && h'.dvsize == h.dvsize
    requires forall p <- h.cs | lo <= p < hi && h.cs[p].kind.Free? :: p in loose
    requires forall p :: p in loose' <==> if p in news then FreeAt(h', p) else p in loose && !(lo <= p < hi)
    requires forall p <- news :: p in h.cs ==> lo <= p < hi
    requires BinsOk(h, loose)
    ensures BinsOk(h', loose')
  {}

  lemma ReplacedKept(h: Heap, h': Heap, lo: int, hi: int, news: set<int>)
    requires Replaced(h.cs, h'.cs, lo, hi, news) && WordsKept(h.mem, h'.mem, h.cs, lo, hi)
    requires forall p <- h.cs | lo <= p < hi :: !h.cs[p].kind.Used?
    requires Apart(h.cs) && LiveOk(h)
    ensures Kept(h, h', h.live.Keys)
  {
    forall p <- h.live
      ensures p in h.cs && p in h'.cs && h'.cs[p].size == h.cs[p].size && h'.cs[p].kind == h.cs[p].kind
      ensures forall a | InPayload(h, p, a) && a in h.mem :: a in h'.mem && h'.mem[a] == h.mem[a]
    {
      if p < lo { assert p + h.cs[p].size <= lo; }
    }
  }

  // ---- Append: the region continues the segment of top ------------------------------------

  function FreshWord(a: int): int { 0 }

  /** A region of zero words, as the system hands it out. */
  function Region(t: int, size: nat): Memory {
    map a | t <= a < t + size :: FreshWord(a)
  }

  ghost function AppendChunks(cs: Chunks, top: int, hi: int, e: int): Chunks
    requires top + TOP_FOOT_SIZE < e
  {
    (map p <- cs | !(top <= p < hi) :: cs[p])
    [top := Chunk(e - TOP_FOOT_SIZE - top, Top, true)]
    [e - TOP_FOOT_SIZE := Chunk(TOP_FOOT_SIZE - 8, Tail, false)]
    [e - 8 := Chunk(8, End, false)]
  }

  /** The region does not overlap what the allocator already has: it was not mapped. */
  predicate Disjoint(mem: Memory, segs: seq<Segment>, t: int, size: nat) {
    && mem.Keys !! Region(t, size).Keys
    && forall i | 0 <= i < |segs| :: t + size <= segs[i].base || SegEnd(segs[i]) <= t
  }

  lemma ChunksOutsideRegion(h: Heap, loose: set<int>, t: int, size: nat)
    requires Disjoint(h.mem, h.segs, t, size) && HeapOk(h, loose)
    requires size > 0
    ensures forall p <- h.cs :: (p < t && p + h.cs[p].size <= t) || t + size <= p
    ensures t !in h.cs
  {
    forall p <- h.cs
      ensures (p < t && p + h.cs[p].size <= t) || t + size <= p
      ensures p != t
    {
      assert InSomeSegment(h, p);
      assert ChunkOk(h.mem, h.cs, p);
    }
  }

  /** What is behind top. */
  lemma TopEnd(h: Heap, loose: set<int>, e: int)
    requires h.segs != [] && e == SegEnd(h.segs[0])
    requires HeapOk(h, loose)
    ensures AtEnd(h, e) && Mapped(h.mem, h.top, e - 8 - h.top)
  {
    hide SegsOk, CoreOk, BinsOk, LiveOk;
    HeapParts(h, loose);
    TopSegment(h, e);
    TopEndChunks(h, e);
  }

  lemma TopSegment(h: Heap, e: int)
    requires h.segs != [] && e == SegEnd(h.segs[0]) && SegsOk(h)
    ensures e % 8 == 0 && e - 8 in h.cs && h.cs[e - 8].kind.End? && h.top + h.topsize == e - TOP_FOOT_SIZE
  {
    assert SegOk(h, h.segs[0]);
    hide InSomeSegment;
  }

  lemma TopEndChunks(h: Heap, e: int)
    requires e % 8 == 0 && e - 8 in h.cs && h.cs[e - 8].kind.End? && h.top + h.topsize == e - TOP_FOOT_SIZE
    requires TopOk(h) && CoreOk(h.mem, h.cs)
    ensures AtEnd(h, e) && Mapped(h.mem, h.top, e - 8 - h.top)
  {
    var t := e - TOP_FOOT_SIZE;
    assert ChunkOk(h.mem, h.cs, h.top) && ChunkOk(h.mem, h.cs, t) && ChunkOk(h.mem, h.cs, e - 8);
    assert h.cs[t].kind.Tail? && t + h.cs[t].size == e - 8;
    assert Mapped(h.mem, h.top, h.topsize) && Mapped(h.mem, t, TOP_FOOT_SIZE - 8);
  }

  ghost predicate Appended(h: Heap, t: int, size: nat, h': Heap) {
    && size > TOP_FOOT_SIZE && t % 8 == 0 && size % 8 == 0 && t + size < ADDRESS_LIMIT
    && h.segs != [] && t == SegEnd(h.segs[0]) && h.top + TOP_FOOT_SIZE < t
    && h' == h.(mem := (h.mem + Region(t, size))[h.top + 8 := h.topsize + size + 1][t + size - TOP_FOOT_SIZE + 8 := TOP_FOOT_SIZE],
                cs := AppendChunks(h.cs, h.top, t, t + size), topsize := h.topsize + size,
                segs := h.segs[0 := h.segs[0].(size := h.segs[0].size + size)])
  }

  /** init_top on the old top with the region added. */
  lemma Append(h: Heap, t: int, size: nat, h': Heap)
    requires h.segs != [] && t == SegEnd(h.segs[0]) && Appended(h, t, size, h')
    requires Disjoint(h.mem, h.segs, t, size) && HeapOk(h, {})
    ensures HeapOk(h', {}) && Kept(h, h', h.live.Keys)
  {
    hide *;
    HeapParts(h, {});
    assert size > 0 by { AppendedSize(h, t, size, h'); }
    ChunksOutsideRegion(h, {}, t, size);
    TopEnd(h, {}, t);
    AppendCore(h, t, size, h');
    AppendRest(h, t, size, h');
    AppendSegs(h, t, size, h');
    HeapWhole(h', {});
  }

  lemma AppendedSize(h: Heap, t: int, size: nat, h': Heap)
    requires Appended(h, t, size, h')
    ensures size > 0
  {}

  ghost function AppendNews(h: Heap, e: int): set<int> {
    {h.top, e - TOP_FOOT_SIZE, e - 8}
  }

  ghost predicate AtEnd(h: Heap, t: int) {
    && h.top in h.cs && h.cs[h.top] == Chunk(h.topsize, Top, true) && h.topsize >= 8 && h.topsize % 8 == 0
    && h.top % 8 == 0 && h.top > 0 && t % 8 == 0 && h.top + h.topsize == t - TOP_FOOT_SIZE
    && t - TOP_FOOT_SIZE in h.cs && h.cs[t - TOP_FOOT_SIZE] == Chunk(TOP_FOOT_SIZE - 8, Tail, false)
    && t - 8 in h.cs && h.cs[t - 8].kind.End? && h.cs[t - 8].size == 8
    && (forall p <- h.cs | h.top <= p < t :: p == h.top || p == t - TOP_FOOT_SIZE || p == t - 8)
  }

  lemma AppendShape(h: Heap, t: int, size: nat, h': Heap)
    requires Appended(h, t, size, h') && AtEnd(h, t)
    requires forall p <- h.cs :: (p < t && p + h.cs[p].size <= t) || t + size <= p
    ensures Replaced(h.cs, h'.cs, h.top, t, AppendNews(h, t + size))
  {
    hide Region;
  }

  lemma AppendWords(h: Heap, t: int, size: nat, h': Heap)
    requires Appended(h, t, size, h') && AtEnd(h, t) && h.mem.Keys !! Region(t, size).Keys
    requires Mapped(h.mem, h.top, t - 8 - h.top)
    ensures WordsKept(h.mem, h'.mem, h.cs, h.top, t)
    ensures forall a | h.top + 8 <= a < t + size :: a in h'.mem
    ensures h'.mem[h.top + 8] == h.topsize + size + 1 && h'.mem[t + size - TOP_FOOT_SIZE + 8] == TOP_FOOT_SIZE
  {}

  lemma AppendCore(h: Heap, t: int, size: nat, h': Heap)
    requires Appended(h, t, size, h') && AtEnd(h, t) && Mapped(h.mem, h.top, t - 8 - h.top)
    requires Disjoint(h.mem, h.segs, t, size) && t !in h.cs
    requires forall p <- h.cs :: (p < t && p + h.cs[p].size <= t) || t + size <= p
    requires CoreOk(h.mem, h.cs)
    ensures CoreOk(h'.mem, h'.cs)
    ensures Replaced(h.cs, h'.cs, h.top, t, AppendNews(h, t + size)) && WordsKept(h.mem, h'.mem, h.cs, h.top, t)
  {
    AppendShape(h, t, size, h');
    AppendWords(h, t, size, h');
    AppendNewsOk(h, t, size, h');
    hide CoreOk;
    ReplacedOk(h.mem, h.cs, h'.mem, h'.cs, h.top, t, AppendNews(h, t + size));
  }

  lemma AppendNewsOk(h: Heap, t: int, size: nat, h': Heap)
    requires Appended(h, t, size, h') && AtEnd(h, t)
    requires forall p <- h.cs :: (p < t && p + h.cs[p].size <= t) || t + size <= p
    requires forall a | h.top + 8 <= a < t + size :: a in h'.mem
    requires h'.mem[h.top + 8] == h.topsize + size + 1 && h'.mem[t + size - TOP_FOOT_SIZE + 8] == TOP_FOOT_SIZE
    requires Apart(h.cs)
    ensures NewsApart(h'.cs, AppendNews(h, t + size))
    ensures forall p <- AppendNews(h, t + size) :: p in h'.cs && ChunkOk(h'.mem, h'.cs, p)
  {
    AppendTop(h, t, size, h');
    AppendTail(h, t, size, h');
    hide ChunkOk;
    AppendNewsApart(h, t, size, h');
  }

  lemma AppendNewsApart(h: Heap, t: int, size: nat, h': Heap)
    requires Appended(h, t, size, h') && AtEnd(h, t)
    requires forall p <- h.cs :: (p < t && p + h.cs[p].size <= t) || t + size <= p
    requires Apart(h.cs)
    ensures NewsApart(h'.cs, AppendNews(h, t + size))
  {}

  lemma AppendTop(h: Heap, t: int, size: nat, h': Heap)
    requires Appended(h, t, size, h') && AtEnd(h, t)
    requires forall a | h.top + 8 <= a < t + size :: a in h'.mem
    requires h'.mem[h.top + 8] == h.topsize + size + 1
    ensures h.top in h'.cs && ChunkOk(h'.mem, h'.cs, h.top)
  {}

  lemma AppendTail(h: Heap, t: int, size: nat, h': Heap)
    requires Appended(h, t, size, h') && AtEnd(h, t)
    requires forall a | h.top + 8 <= a < t + size :: a in h'.mem
    requires h'.mem[t + size - TOP_FOOT_SIZE + 8] == TOP_FOOT_SIZE
    ensures t + size - TOP_FOOT_SIZE in h'.cs && ChunkOk(h'.mem, h'.cs, t + size - TOP_FOOT_SIZE)
    ensures t + size - 8 in h'.cs && ChunkOk(h'.mem, h'.cs, t + size - 8)
  {}

  lemma AppendRest(h: Heap, t: int, size: nat, h': Heap)
    requires Appended(h, t, size, h') && AtEnd(h, t)
    requires Replaced(h.cs, h'.cs, h.top, t, AppendNews(h, t + size)) && WordsKept(h.mem, h'.mem, h.cs, h.top, t)
    requires forall p <- h.cs :: (p < t && p + h.cs[p].size <= t) || t + size <= p
    requires CoreOk(h.mem, h.cs) && BinsOk(h, {}) && TopOk(h) && LiveOk(h)
    ensures BinsOk(h', {}) && TopOk(h') && LiveOk(h') && Kept(h, h', h.live.Keys)
  {
    hide CoreOk, BinsOk, LiveOk, TopOk, Replaced, WordsKept;
    ReplacedRest(h, h', {}, {}, h.top, t, AppendNews(h, t + size));
  }

  lemma AppendSegs(h: Heap, t: int, size: nat, h': Heap)
    requires Appended(h, t, size, h') && AtEnd(h, t) && Disjoint(h.mem, h.segs, t, size) && SegsOk(h)
    requires Replaced(h.cs, h'.cs, h.top, t, AppendNews(h, t + size))
    ensures SegsOk(h')
  {
    hide Appended, Replaced, AtEnd, SegOk, InSomeSegment;
    AppendedSegs(h, t, size, h');
    forall i | 0 <= i < |h'.segs| ensures SegOk(h', h'.segs[i]) {
      assert i != 0 ==> SegApart(h.segs[0], h.segs[i]);
      AppendOneSeg(h, t, size, h', i);
    }
    forall p | p in h'.cs ensures InSomeSegment(h', p) {
      assert p in h.cs ==> InSomeSegment(h, p);
      AppendInside(h, t, size, h', p);
    }
    assert h'.segs != [];
    forall i, j | 0 <= i < j < |h'.segs| ensures SegApart(h'.segs[i], h'.segs[j]) {
      assert SegApart(h.segs[i], h.segs[j]);
      if i == 0 { AppendOneSeg(h, t, size, h', j); }
    }
  }

  lemma AppendedSegs(h: Heap, t: int, size: nat, h': Heap)
    requires Appended(h, t, size, h') && AtEnd(h, t)
    ensures |h'.segs| == |h.segs| && h'.top == h.top && h.segs != [] && t == SegEnd(h.segs[0])
    ensures h'.segs[0] == Segment(h.segs[0].base, h.segs[0].size + size)
    ensures forall i | 0 < i < |h.segs| :: h'.segs[i] == h.segs[i]
    ensures h'.top + h'.topsize + TOP_FOOT_SIZE == SegEnd(h'.segs[0])
    ensures forall i, j | 0 < i < j < |h.segs| :: SegApart(h.segs[i], h.segs[j]) ==> SegApart(h'.segs[i], h'.segs[j])
  {}

  lemma AppendInside(h: Heap, t: int, size: nat, h': Heap, p: int)
    requires Appended(h, t, size, h') && AtEnd(h, t) && p in h'.cs && h.segs[0].base <= h.top
    requires p in h.cs ==> InSomeSegment(h, p)
    ensures InSomeSegment(h', p)
  {
    if p in h.cs && !(h.top <= p < t) && p != t + size - 8 && p != t + size - TOP_FOOT_SIZE {
      var i :| 0 <= i < |h.segs| && Inside(h.cs, h.segs[i], p);
      assert Inside(h'.cs, h'.segs[i], p);
    } else {
      assert Inside(h'.cs, h'.segs[0], p);
    }
  }

  lemma AppendOneSeg(h: Heap, t: int, size: nat, h': Heap, i: nat)
    requires Appended(h, t, size, h') && AtEnd(h, t) && i < |h.segs| && SegOk(h, h.segs[i])
    requires h.segs != [] && t == SegEnd(h.segs[0]) && h.segs[0].base <= h.top
    requires i != 0 ==> SegApart(h.segs[0], h.segs[i]) && (t + size <= h.segs[i].base || SegEnd(h.segs[i]) <= t)
    ensures SegOk(h', h'.segs[i])
    ensures i != 0 ==> SegApart(h'.segs[0], h'.segs[i])
  {}

  // ---- Prepend: the region ends where a segment begins --------------------------------------

  ghost function PrependChunks(cs: Chunks, t: int, nb: nat, b: int, hi: int, k: Kind): Chunks
    requires hi in cs && t + nb < hi
  {
    (map p <- cs | !(b <= p < hi) :: cs[p])
    [t := Chunk(nb, Used, true)][t + nb := Chunk(hi - t - nb, k, true)][hi := cs[hi].(pinuse := false)]
  }

  /** prepend_alloc: a block of nb bytes at t, and the rest of the region joined with what is
      before hi: the first chunk of the segment i unless that is in use. */
  ghost predicate Prepended(h: Heap, i: nat, t: int, size: nat, nb: nat, hi: int, k: Kind, h': Heap) {
    && i < |h.segs| && t + size == h.segs[i].base && t > 0 && t % 8 == 0 && size % 8 == 0
    && nb % 8 == 0 && nb >= MIN_CHUNK_SIZE && nb + MIN_CHUNK_SIZE <= size
    && var b := h.segs[i].base;
    && b in h.cs && hi in h.cs && hi + 8 in h.mem && b <= hi
    && hi == (if h.cs[b].kind.Used? then b else b + h.cs[b].size)
    && (k == if h.cs[b].kind.Top? then Top else Free)
    && t + nb < hi && h'.cs == PrependChunks(h.cs, t, nb, b, hi, k)
    && h'.segs == h.segs[i := Segment(t, size + h.segs[i].size)]
    && h'.live == h.live && h'.small == h.small && h'.large == h.large && h'.dv == h.dv && h'.dvsize == h.dvsize
    && var m := (h.mem + Region(t, size))[t + 8 := nb + 3];
    && if k.Top? then
         h'.top == t + nb && h'.topsize == hi - t - nb && h'.mem == m[t + nb + 8 := hi - t - nb + 1]
       else
         h'.top == h.top && h'.topsize == h.topsize
         && h'.mem == m[hi + 8 := WithoutPinuse(h.mem[hi + 8])][t + nb + 8 := hi - t - nb + 1][hi := hi - t - nb]
  }

  lemma Prepend(h: Heap, loose: set<int>, i: nat, t: int, size: nat, nb: nat, hi: int, k: Kind, h': Heap)
    requires Prepended(h, i, t, size, nb, hi, k, h') && Disjoint(h.mem, h.segs, t, size)
    requires FreeAt(h, t + size) ==> t + size in loose
    requires HeapOk(h, loose)
    ensures HeapOk(h', LooseThen(loose, t + size, t + nb, k)) && Kept(h, h', h.live.Keys)
    ensures t !in h.live && t in h'.cs && h'.cs[t] == Chunk(nb, Used, true)
  {
    hide *;
    HeapParts(h, loose);
    var b := t + size;
    PrependBasics(h, i, t, size, nb, hi, k, h');
    ChunksOutsideRegion(h, loose, t, size);
    NoPredecessor(h, loose, i);
    FirstChunk(h, i, hi);
    PrependCore(h, i, t, size, nb, hi, k, h');
    PrependRest(h, loose, i, t, size, nb, hi, k, h');
    PrependBase(h, i, t, size, nb, hi, k, h');
    PrependSegs(h, i, t, size, nb, hi, k, h');
    HeapWhole(h', LooseThen(loose, b, t + nb, k));
  }

  lemma PrependBasics(h: Heap, i: nat, t: int, size: nat, nb: nat, hi: int, k: Kind, h': Heap)
    requires Prepended(h, i, t, size, nb, hi, k, h')
    ensures size > 0 && i < |h.segs| && h.segs[i].base == t + size && t + size in h.cs
    ensures hi == (if h.cs[t + size].kind.Used? then t + size else t + size + h.cs[t + size].size)
    ensures t in h'.cs && h'.cs[t] == Chunk(nb, Used, true)
  {}

  lemma WordBefore(mem: Memory, t: int, nb: nat, hi: int, a: int)
    requires (forall a | t + 8 <= a < hi + 8 :: a in mem) && t % 8 == 0 && hi % 8 == 0 && t + nb + 8 <= a < hi + 8
    ensures a in mem
  {}

  lemma NoPredecessor(h: Heap, loose: set<int>, i: nat)
    requires i < |h.segs| && HeapOk(h, loose)
    ensures forall p <- h.cs | p < h.segs[i].base && !h.cs[p].kind.End? :: p + h.cs[p].size != h.segs[i].base
  {
    hide *;
    HeapParts(h, loose);
    forall p <- h.cs | p < h.segs[i].base && !h.cs[p].kind.End? ensures p + h.cs[p].size != h.segs[i].base {
      NotInFront(h, i, p);
    }
  }

  lemma NotInFront(h: Heap, i: nat, p: int)
    requires i < |h.segs| && p in h.cs && p < h.segs[i].base && !h.cs[p].kind.End?
    requires SegsOk(h) && CoreOk(h.mem, h.cs)
    ensures p + h.cs[p].size != h.segs[i].base
  {
    hide CoreOk;
    assert InSomeSegment(h, p);
    var j :| 0 <= j < |h.segs| && Inside(h.cs, h.segs[j], p);
    assert SegOk(h, h.segs[j]);
    assert i < j ==> SegApart(h.segs[i], h.segs[j]);
    assert j < i ==> SegApart(h.segs[j], h.segs[i]);
    PositiveSize(h.mem, h.cs, p);
    EndBehind(h.mem, h.cs, p, SegEnd(h.segs[j]) - 8);
  }

  lemma PositiveSize(mem: Memory, cs: Chunks, p: int)
    requires p in cs && CoreOk(mem, cs)
    ensures cs[p].size >= 8
  {
    assert ChunkOk(mem, cs, p);
  }

  lemma EndBehind(mem: Memory, cs: Chunks, p: int, e: int)
    requires p in cs && !cs[p].kind.End? && e in cs && cs[e].kind.End? && p < e + 8
    requires CoreOk(mem, cs)
    ensures p + cs[p].size <= e
  {
    assert ChunkOk(mem, cs, e);
    assert p % 8 == 0 by { assert ChunkOk(mem, cs, p); }
    hide ChunkOk;
    assert p < e;
  }

  /** What the first chunk of a segment looks like, and the chunk at hi. */
  ghost predicate FirstLooks(h: Heap, b: int, hi: int) {
    && FirstWord(h.mem, b) && b in h.cs && hi in h.cs && b <= hi && h.cs[b].pinuse && b % 8 == 0 && hi % 8 == 0 && SizeOk(h.cs[b])
    && (h.cs[b].kind.Used? || h.cs[b].kind.Free? || h.cs[b].kind.Top?)
    && (forall q <- h.cs | b <= q < hi :: q == b)
    && !h.cs[hi].kind.End? && SizeOk(h.cs[hi]) && HeadAt(h.mem, hi, h.cs[hi]) && ChunkOk(h.mem, h.cs, hi)
    && (b < hi ==> h.cs[hi].pinuse == InUse(h.cs[b].kind) && MayFollow(h.cs[b].kind, h.cs[hi].kind) && Mapped(h.mem, b, hi - b))
  }

  lemma FirstChunk(h: Heap, i: nat, hi: int)
    requires i < |h.segs| && h.segs[i].base in h.cs
    requires var b := h.segs[i].base; hi == if h.cs[b].kind.Used? then b else b + h.cs[b].size
    requires CoreOk(h.mem, h.cs) && SegsOk(h)
    ensures FirstLooks(h, h.segs[i].base, hi)
  {
    hide *;
    SegsParts(h);
    var b := h.segs[i].base;
    BaseLooks(h, h.segs[i]);
    ChunkFacts(h.mem, h.cs, b, b + h.cs[b].size);
    FirstOf(h, b, b + h.cs[b].size, hi);
  }

  lemma BaseLooks(h: Heap, s: Segment)
    requires SegOk(h, s) && CoreOk(h.mem, h.cs)
    ensures FirstWord(h.mem, s.base) && s.base in h.cs && h.cs[s.base].pinuse && !h.cs[s.base].kind.End?
    ensures h.cs[s.base].kind.Used? || h.cs[s.base].kind.Free? || h.cs[s.base].kind.Top?
    ensures SizeOk(h.cs[s.base])
  {
    assert ChunkOk(h.mem, h.cs, s.base);
  }

  lemma FirstOf(h: Heap, b: int, n: int, hi: int)
    requires FirstWord(h.mem, b) && b in h.cs && h.cs[b].pinuse && !h.cs[b].kind.End? && n == b + h.cs[b].size
    requires h.cs[b].kind.Used? || h.cs[b].kind.Free? || h.cs[b].kind.Top?
    requires ChunkOk(h.mem, h.cs, b) && n in h.cs && n > b && ChunkOk(h.mem, h.cs, n) && HeadAt(h.mem, b, h.cs[b])
    requires (forall q <- h.cs :: !(b < q < n)) && (!h.cs[n].kind.End? ==> HeadAt(h.mem, n, h.cs[n]))
    requires hi == if h.cs[b].kind.Used? then b else n
    ensures FirstLooks(h, b, hi)
  {}

  lemma PrependCore(h: Heap, i: nat, t: int, size: nat, nb: nat, hi: int, k: Kind, h': Heap)
    requires Prepended(h, i, t, size, nb, hi, k, h') && Disjoint(h.mem, h.segs, t, size) && FirstLooks(h, t + size, hi)
    requires forall p <- h.cs :: (p < t && p + h.cs[p].size <= t) || t + size <= p
    requires forall p <- h.cs | p < t + size && !h.cs[p].kind.End? :: p + h.cs[p].size != t + size
    requires CoreOk(h.mem, h.cs)
    ensures CoreOk(h'.mem, h'.cs)
    ensures Replaced(h.cs, h'.cs, t + size, hi, {t, t + nb}) && WordsKept(h.mem, h'.mem, h.cs, t + size, hi)
  {
    hide *;
    PrependShape(h, i, t, size, nb, hi, k, h');
    PrependWords(h, i, t, size, nb, hi, k, h');
    PrependNews(h, i, t, size, nb, hi, k, h');
    PrependApart(h, i, t, size, nb, hi, k, h');
    ReplacedOk(h.mem, h.cs, h'.mem, h'.cs, t + size, hi, {t, t + nb});
  }

  lemma PrependShape(h: Heap, i: nat, t: int, size: nat, nb: nat, hi: int, k: Kind, h': Heap)
    requires Prepended(h, i, t, size, nb, hi, k, h') && FirstLooks(h, t + size, hi)
    requires forall p <- h.cs :: (p < t && p + h.cs[p].size <= t) || t + size <= p
    requires forall p <- h.cs | p < t + size && !h.cs[p].kind.End? :: p + h.cs[p].size != t + size
    ensures Replaced(h.cs, h'.cs, t + size, hi, {t, t + nb})
  {}

  lemma PrependApart(h: Heap, i: nat, t: int, size: nat, nb: nat, hi: int, k: Kind, h': Heap)
    requires Prepended(h, i, t, size, nb, hi, k, h') && FirstLooks(h, t + size, hi)
    requires forall p <- h.cs :: (p < t && p + h.cs[p].size <= t) || t + size <= p
    ensures NewsApart(h'.cs, {t, t + nb})
  {}

  lemma PrependWords(h: Heap, i: nat, t: int, size: nat, nb: nat, hi: int, k: Kind, h': Heap)
    requires Prepended(h, i, t, size, nb, hi, k, h') && Disjoint(h.mem, h.segs, t, size) && FirstLooks(h, t + size, hi)
    ensures WordsKept(h.mem, h'.mem, h.cs, t + size, hi)
    ensures forall a | t + 8 <= a < hi + 8 :: a in h'.mem
    ensures NewHeads(h'.mem, t, nb, hi, k) && HeadAt(h'.mem, hi, h.cs[hi].(pinuse := false))
  {
    hide PrependChunks, ChunkOk, BackOk;
    if k.Free? { HeadBits(h.cs[hi]); }
    forall a | t + 8 <= a < hi + 8 ensures a in h'.mem {
      assert a < t + size ==> a in Region(t, size);
      assert a >= t + size ==> a in h.mem;
    }
    forall a <- h.mem ensures a !in Region(t, size) {}
  }

  ghost predicate NewHeads(mem: Memory, t: int, nb: nat, hi: int, k: Kind) {
    && t + 8 in mem && mem[t + 8] == nb + 3
    && t + nb + 8 in mem && mem[t + nb + 8] == hi - t - nb + 1
    && (k.Free? ==> hi in mem && mem[hi] == hi - t - nb)
  }

  lemma PrependNews(h: Heap, i: nat, t: int, size: nat, nb: nat, hi: int, k: Kind, h': Heap)
    requires Prepended(h, i, t, size, nb, hi, k, h') && FirstLooks(h, t + size, hi)
    requires Replaced(h.cs, h'.cs, t + size, hi, {t, t + nb}) && WordsKept(h.mem, h'.mem, h.cs, t + size, hi)
    requires forall a | t + 8 <= a < hi + 8 :: a in h'.mem
    requires NewHeads(h'.mem, t, nb, hi, k) && HeadAt(h'.mem, hi, h.cs[hi].(pinuse := false))
    ensures forall p <- {t, t + nb} :: p in h'.cs && ChunkOk(h'.mem, h'.cs, p)
    ensures hi in h'.cs && ChunkOk(h'.mem, h'.cs, hi)
  {
    hide *;
    PrependBlock(h, i, t, size, nb, hi, k, h');
    PrependRemainder(h, i, t, size, nb, hi, k, h');
    PrependBehind(h, i, t, size, nb, hi, k, h');
  }

  lemma PrependBlock(h: Heap, i: nat, t: int, size: nat, nb: nat, hi: int, k: Kind, h': Heap)
    requires Prepended(h, i, t, size, nb, hi, k, h')
    requires forall a | t + 8 <= a < hi + 8 :: a in h'.mem
    requires NewHeads(h'.mem, t, nb, hi, k)
    ensures t in h'.cs && ChunkOk(h'.mem, h'.cs, t)
  {}

  lemma PrependRemainder(h: Heap, i: nat, t: int, size: nat, nb: nat, hi: int, k: Kind, h': Heap)
    requires Prepended(h, i, t, size, nb, hi, k, h') && FirstLooks(h, t + size, hi)
    requires HeadAt(h'.mem, hi, h.cs[hi].(pinuse := false))
    requires forall a | t + 8 <= a < hi + 8 :: a in h'.mem
    requires NewHeads(h'.mem, t, nb, hi, k)
    ensures t + nb in h'.cs && ChunkOk(h'.mem, h'.cs, t + nb)
  {
    hide *;
    PrependFacts(h, i, t, size, nb, hi, k, h');
    var q := t + nb;
    forall a | q + 8 <= a < hi + 8 ensures a in h'.mem { WordBefore(h'.mem, t, nb, hi, a); }
    RemainderHeads(h'.mem, t, nb, hi, k, h'.cs[hi]);
    RemainderOk(h'.mem, h'.cs, q, hi, k);
  }

  lemma RemainderHeads(mem: Memory, t: int, nb: nat, hi: int, k: Kind, d: Chunk)
    requires NewHeads(mem, t, nb, hi, k) && HeadAt(mem, hi, d)
    ensures t + nb + 8 in mem && mem[t + nb + 8] == hi - t - nb + 1
    ensures k.Free? ==> hi in mem && mem[hi] == hi - t - nb
  {}

  lemma RemainderOk(mem: Memory, cs: Chunks, q: int, hi: int, k: Kind)
    requires q in cs && hi in cs && hi - q >= MIN_CHUNK_SIZE && cs[q] == Chunk(hi - q, k, true) && !cs[hi].pinuse
    requires q > 0 && q % 8 == 0 && hi % 8 == 0
    requires (k.Free? && InUse(cs[hi].kind)) || (k.Top? && cs[hi].kind.Tail?)
    requires forall a | q + 8 <= a < hi + 8 :: a in mem
    requires q + 8 in mem && mem[q + 8] == hi - q + 1 && (k.Free? ==> hi in mem && mem[hi] == hi - q)
    ensures ChunkOk(mem, cs, q)
  {}

  /** What Prepended says of the chunks. */
  lemma PrependFacts(h: Heap, i: nat, t: int, size: nat, nb: nat, hi: int, k: Kind, h': Heap)
    requires Prepended(h, i, t, size, nb, hi, k, h') && FirstLooks(h, t + size, hi)
    ensures t > 0 && t % 8 == 0 && nb % 8 == 0 && size % 8 == 0 && hi % 8 == 0 && t < t + nb < t + size <= hi
    ensures hi - t - nb >= MIN_CHUNK_SIZE && hi in h.cs && t + size in h.cs
    ensures t in h'.cs && h'.cs[t] == Chunk(nb, Used, true)
    ensures t + nb in h'.cs && h'.cs[t + nb] == Chunk(hi - t - nb, k, true)
    ensures hi in h'.cs && h'.cs[hi] == h.cs[hi].(pinuse := false)
    ensures (k.Free? && InUse(h.cs[hi].kind)) || (k.Top? && h.cs[hi].kind.Tail?)
    ensures k.Top? <==> h.cs[t + size].kind.Top?
    ensures if h.cs[t + size].kind.Used? then hi == t + size else hi == t + size + h.cs[t + size].size
    ensures SizeOk(h.cs[hi]) && h.cs[t + size].size > 0
    ensures forall q <- h.cs | t + size <= q < hi :: q == t + size
    ensures h'.small == h.small && h'.large == h.large && h'.dv == h.dv && h'.dvsize == h.dvsize && h'.live == h.live
    ensures if k.Top? then h'.top == t + nb && h'.topsize == hi - t - nb else h'.top == h.top && h'.topsize == h.topsize
    ensures i < |h.segs| && t + size == h.segs[i].base && h'.segs == h.segs[i := Segment(t, size + h.segs[i].size)]
  {}

  lemma PrependBehind(h: Heap, i: nat, t: int, size: nat, nb: nat, hi: int, k: Kind, h': Heap)
    requires Prepended(h, i, t, size, nb, hi, k, h') && FirstLooks(h, t + size, hi)
    requires WordsKept(h.mem, h'.mem, h.cs, t + size, hi)
    requires NewHeads(h'.mem, t, nb, hi, k) && HeadAt(h'.mem, hi, h.cs[hi].(pinuse := false))
    ensures hi in h'.cs && ChunkOk(h'.mem, h'.cs, hi)
  {
    var n := hi + h.cs[hi].size;
    assert n in h'.cs && h'.cs[n] == h.cs[n];
  }

  ghost function LooseThen(loose: set<int>, b: int, q: int, k: Kind): set<int> {
    loose - {b} + (if k.Free? then {q} else {})
  }

  lemma PrependRest(h: Heap, loose: set<int>, i: nat, t: int, size: nat, nb: nat, hi: int, k: Kind, h': Heap)
    requires Prepended(h, i, t, size, nb, hi, k, h') && FirstLooks(h, t + size, hi)
    requires Replaced(h.cs, h'.cs, t + size, hi, {t, t + nb}) && WordsKept(h.mem, h'.mem, h.cs, t + size, hi)
    requires forall p <- h.cs :: (p < t && p + h.cs[p].size <= t) || t + size <= p
    requires FreeAt(h, t + size) ==> t + size in loose
    requires CoreOk(h.mem, h.cs) && BinsOk(h, loose) && TopOk(h) && LiveOk(h)
    ensures BinsOk(h', LooseThen(loose, t + size, t + nb, k))
    ensures TopOk(h') && LiveOk(h') && Kept(h, h', h.live.Keys) && t !in h.live
  {
    hide *;
    PrependFacts(h, i, t, size, nb, hi, k, h');
    ReplacedTop(h, h', t + size, hi, {t, t + nb});
    PrependLoose(h, loose, t, t + size, t + nb, hi, k, h');
    ReplacedRest(h, h', loose, LooseThen(loose, t + size, t + nb, k), t + size, hi, {t, t + nb});
  }

  lemma PrependLoose(h: Heap, loose: set<int>, t: int, b: int, q: int, hi: int, k: Kind, h': Heap)
    requires t < q < b <= hi && hi in h.cs && b in h.cs && h.cs[b].size > 0 && t in h'.cs && q in h'.cs
    requires h'.cs[t].kind.Used? && h'.cs[q] == Chunk(hi - q, k, true)
    requires k.Top? <==> h.cs[b].kind.Top?
    requires k.Free? || k.Top?
    requires if h.cs[b].kind.Used? then hi == b else hi == b + h.cs[b].size
    requires forall p <- h.cs | b <= p < hi :: p == b
    requires forall p <- h.cs :: p < t || b <= p
    requires FreeAt(h, b) ==> b in loose
    requires if k.Top? then h'.top == q && h'.topsize == hi - q else h'.top == h.top && h'.topsize == h.topsize
    requires !k.Top? ==> TopKept(h, h', b, hi)
    requires TopOk(h) && BinsOk(h, loose)
    ensures forall p <- h.cs | b <= p < hi && h.cs[p].kind.Free? :: p in loose
    ensures forall p :: p in LooseThen(loose, b, q, k) <==> if p in {t, q} then FreeAt(h', p) else p in loose && !(b <= p < hi)
    ensures forall p <- {t, q} :: p in h.cs ==> b <= p < hi
    ensures forall p <- h.cs | b <= p < hi :: !h.cs[p].kind.Used?
    ensures h'.top in h'.cs && h'.cs[h'.top].kind.Top? && h'.cs[h'.top].size == h'.topsize
    ensures forall p <- {t, q} | h'.cs[p].kind.Top? :: p == h'.top
    ensures h'.top != h.top ==> b <= h.top < hi
    ensures t !in h.cs && (LiveOk(h) ==> t !in h.live)
  {
    assert forall p <- loose :: FreeAt(h, p);
  }

  ghost predicate TopKept(h: Heap, h': Heap, b: int, hi: int) {
    h.top in h.cs && h.cs[h.top].kind.Top? && !(b <= h.top < hi) ==> h.top in h'.cs && h'.cs[h.top].kind.Top? && h'.cs[h.top].size == h.cs[h.top].size
  }

  lemma ReplacedTop(h: Heap, h': Heap, lo: int, hi: int, news: set<int>)
    requires Replaced(h.cs, h'.cs, lo, hi, news)
    ensures TopKept(h, h', lo, hi)
  {}

  // ---- Segments after growth ---------------------------------------------------------------

  ghost predicate Wider(s: Segment, s': Segment) {
    s'.base <= s.base && SegEnd(s) == SegEnd(s')
  }

  /** Every chunk lies in a segment, when the old segments only got wider (and one was added at
      the front, if off is 1). */
  lemma GrownInside(h: Heap, h': Heap, off: nat, lo: int, hi: int, news: set<int>)
    requires Replaced(h.cs, h'.cs, lo, hi, news) && |h'.segs| == |h.segs| + off
    requires forall j | 0 <= j < |h.segs| :: Wider(h.segs[j], h'.segs[j + off])
    requires forall p {:trigger InSomeSegment(h, p)} | p in h.cs :: InSomeSegment(h, p)
    requires forall p <- news :: p in h'.cs && InSomeSegment(h', p)
    ensures forall p {:trigger InSomeSegment(h', p)} | p in h'.cs :: InSomeSegment(h', p)
  {
    forall p | p in h'.cs ensures InSomeSegment(h', p) {
      if p !in news {
        assert InSomeSegment(h, p);
        var j :| 0 <= j < |h.segs| && Inside(h.cs, h.segs[j], p);
        assert Inside(h'.cs, h'.segs[j + off], p);
      }
    }
  }

  lemma PrependBase(h: Heap, i: nat, t: int, size: nat, nb: nat, hi: int, k: Kind, h': Heap)
    requires Prepended(h, i, t, size, nb, hi, k, h')
    ensures FirstWord(h'.mem, t) && h.mem.Keys <= h'.mem.Keys
  {
    forall a | t <= a < t + 8 ensures a in h'.mem { assert a in Region(t, size); }
  }

  lemma PrependSegs(h: Heap, i: nat, t: int, size: nat, nb: nat, hi: int, k: Kind, h': Heap)
    requires Prepended(h, i, t, size, nb, hi, k, h') && FirstLooks(h, t + size, hi) && Disjoint(h.mem, h.segs, t, size)
    requires Replaced(h.cs, h'.cs, t + size, hi, {t, t + nb}) && CoreOk(h.mem, h.cs) && SegsOk(h) && TopOk(h)
    requires FirstWord(h'.mem, t) && h.mem.Keys <= h'.mem.Keys
    ensures SegsOk(h')
  {
    hide *;
    PrependFacts(h, i, t, size, nb, hi, k, h');
    SegsParts(h);
    SegsApart(h);
    FirstInside(h, i, hi);
    forall j | 0 <= j < |h.segs| ensures h.segs[j].size > TOP_FOOT_SIZE { SegSize(h, h.segs[j]); }
    forall j | 0 <= j < |h.segs| ensures SegOk(h', h'.segs[j]) {
      assert j == i || SegApart(h.segs[i], h.segs[j]) by { EitherWay(h, i, j); }
      PrependOneSeg(h, i, t, size, hi, {t, t + nb}, h', j);
    }
    PrependApartSegs(h, i, t, size, h');
    PrependInside(h, i, t, size, nb, hi, h');
    GrownInside(h, h', 0, t + size, hi, {t, t + nb});
    PrependTopEnd(h, i, t, size, t + nb, hi, k, h');
    SegsWhole(h');
  }

  /** The range joined with the region lies in the segment, before its end. */
  lemma FirstInside(h: Heap, i: nat, hi: int)
    requires i < |h.segs| && FirstLooks(h, h.segs[i].base, hi) && SegOk(h, h.segs[i]) && CoreOk(h.mem, h.cs)
    requires var b := h.segs[i].base; hi == if h.cs[b].kind.Used? then b else b + h.cs[b].size
    ensures hi < SegEnd(h.segs[i]) - 8
  {
    hide CoreOk;
    EndBehind(h.mem, h.cs, h.segs[i].base, SegEnd(h.segs[i]) - 8);
    PositiveSize(h.mem, h.cs, h.segs[i].base);
  }

  lemma PrependOneSeg(h: Heap, i: nat, t: int, size: nat, hi: int, news: set<int>, h': Heap, j: nat)
    requires i < |h.segs| && j < |h.segs| && t + size == h.segs[i].base && t > 0 && t % 8 == 0 && size % 8 == 0
    requires h'.segs == h.segs[i := Segment(t, size + h.segs[i].size)]
    requires hi < SegEnd(h.segs[i]) - 8 && Replaced(h.cs, h'.cs, t + size, hi, news)
    requires FirstWord(h'.mem, t) && h.mem.Keys <= h'.mem.Keys && t in h'.cs && h'.cs[t].kind.Used? && h'.cs[t].pinuse
    requires SegOk(h, h.segs[j]) && (j == i || SegApart(h.segs[i], h.segs[j]))
    ensures SegOk(h', h'.segs[j])
  {}

  lemma PrependApartSegs(h: Heap, i: nat, t: int, size: nat, h': Heap)
    requires i < |h.segs| && t + size == h.segs[i].base
    requires h'.segs == h.segs[i := Segment(t, size + h.segs[i].size)]
    requires Disjoint(h.mem, h.segs, t, size) && forall j, k | 0 <= j < k < |h.segs| :: SegApart(h.segs[j], h.segs[k])
    requires forall j | 0 <= j < |h.segs| :: h.segs[j].size > 0
    ensures forall j, k | 0 <= j < k < |h'.segs| :: SegApart(h'.segs[j], h'.segs[k])
  {
    forall j, k | 0 <= j < k < |h'.segs| ensures SegApart(h'.segs[j], h'.segs[k]) {
      assert SegApart(h.segs[j], h.segs[k]);
      assert j != i ==> SegApart(h.segs[j], Segment(t, size + h.segs[i].size));
    }
  }

  lemma PrependInside(h: Heap, i: nat, t: int, size: nat, nb: nat, hi: int, h': Heap)
    requires i < |h.segs| && t + size == h.segs[i].base && hi < SegEnd(h.segs[i]) - 8 && t + nb < t + size
    requires h'.segs == h.segs[i := Segment(t, size + h.segs[i].size)]
    requires t in h'.cs && h'.cs[t].size == nb && t + nb in h'.cs && h'.cs[t + nb].size == hi - t - nb
    requires !h'.cs[t].kind.End? && !h'.cs[t + nb].kind.End?
    requires hi >= t + size
    ensures forall p <- {t, t + nb} :: p in h'.cs && InSomeSegment(h', p)
    ensures |h'.segs| == |h.segs| && forall j | 0 <= j < |h.segs| :: Wider(h.segs[j], h'.segs[j + 0])
  {
    assert Inside(h'.cs, h'.segs[i], t) && Inside(h'.cs, h'.segs[i], t + nb);
  }

  lemma PrependTopEnd(h: Heap, i: nat, t: int, size: nat, q: int, hi: int, k: Kind, h': Heap)
    requires i < |h.segs| && t + size == h.segs[i].base && t <= q < t + size <= hi && t + size in h.cs
    requires h'.segs == h.segs[i := Segment(t, size + h.segs[i].size)]
    requires k.Top? <==> h.cs[t + size].kind.Top?
    requires k.Top? ==> hi == t + size + h.cs[t + size].size
    requires if k.Top? then h'.top == q && h'.topsize == hi - q else h'.top == h.top && h'.topsize == h.topsize
    requires h.segs[i].size > TOP_FOOT_SIZE
    requires i != 0 ==> SegApart(h.segs[0], h.segs[i])
    requires h.segs != [] && h.segs[0].base <= h.top && h.top + h.topsize + TOP_FOOT_SIZE == SegEnd(h.segs[0])
    requires TopOk(h)
    ensures h'.segs != [] && h'.segs[0].base <= h'.top && h'.top + h'.topsize + TOP_FOOT_SIZE == SegEnd(h'.segs[0])
  {}

  lemma SegSize(h: Heap, s: Segment)
    requires SegOk(h, s)
    ensures s.size > TOP_FOOT_SIZE
  {}

  lemma SegsParts(h: Heap)
    requires SegsOk(h)
    ensures h.segs != [] && h.segs[0].base <= h.top && h.top + h.topsize + TOP_FOOT_SIZE == SegEnd(h.segs[0])
    ensures forall i | 0 <= i < |h.segs| :: SegOk(h, h.segs[i])
    ensures forall p {:trigger InSomeSegment(h, p)} | p in h.cs :: InSomeSegment(h, p)
  {}

  lemma SegsApart(h: Heap)
    requires SegsOk(h)
    ensures forall i, j | 0 <= i < j < |h.segs| :: SegApart(h.segs[i], h.segs[j])
  {}

  lemma EitherWay(h: Heap, i: nat, j: nat)
    requires i < |h.segs| && j < |h.segs|
    requires forall i, j | 0 <= i < j < |h.segs| :: SegApart(h.segs[i], h.segs[j])
    ensures i == j || SegApart(h.segs[i], h.segs[j])
  {
    assert i < j ==> SegApart(h.segs[i], h.segs[j]);
    assert j < i ==> SegApart(h.segs[j], h.segs[i]);
  }

  lemma SegsWhole(h: Heap)
    requires h.segs != [] && h.segs[0].base <= h.top && h.top + h.topsize + TOP_FOOT_SIZE == SegEnd(h.segs[0])
    requires forall i | 0 <= i < |h.segs| :: SegOk(h, h.segs[i])
    requires forall i, j | 0 <= i < j < |h.segs| :: SegApart(h.segs[i], h.segs[j])
    requires forall p {:trigger InSomeSegment(h, p)} | p in h.cs :: InSomeSegment(h, p)
    ensures SegsOk(h)
  {}

  // ---- A segment of its own ------------------------------------------------------------------

  const SEGMENT_CHUNK_SIZE: nat := 32
  const FENCEPOST_HEAD: int := 11

  ghost function Fences(lo: int, hi: int): set<int> {
    set p | lo <= p < hi && p % 8 == 0
  }

  function FencepostHead(a: int): int { FENCEPOST_HEAD }

  /** Fenceposts' head words. */
  function FenceWords(lo: int, hi: int): Memory {
    map a | lo <= a < hi && a % 8 == 0 :: FencepostHead(a)
  }

  function FenceChunk(p: int): Chunk { Chunk(FENCE_SIZE, Fence, true) }

  /** What add_segment makes of the old top and its fake trailing chunk: a record of the old
      segment at csp, fenceposts up to the end, and what is left in front as a free chunk. */
  ghost function AddedChunks(cs: Chunks, top: int, csp: int, e: int, t: int, size: nat): Chunks
    requires size > TOP_FOOT_SIZE && top <= csp
  {
    var news := AddedNews(top, csp, e, t, size);
    map p <- (set p <- cs | !(top <= p < e - 8)) + news :: if p in news then AddedChunk(top, csp, t, size, p) else cs[p]
  }

  ghost function AddedNews(top: int, csp: int, e: int, t: int, size: nat): set<int> {
    {top, csp} + Fences(csp + SEGMENT_CHUNK_SIZE, e - 8) + {t, t + size - TOP_FOOT_SIZE, t + size - 8}
  }

  function AddedChunk(top: int, csp: int, t: int, size: nat, p: int): Chunk
    requires size > TOP_FOOT_SIZE && top <= csp
  {
    if p == t then Chunk(size - TOP_FOOT_SIZE, Top, true)
    else if p == t + size - TOP_FOOT_SIZE then Chunk(TOP_FOOT_SIZE - 8, Tail, false)
    else if p == t + size - 8 then Chunk(8, End, false)
    else if p == csp then Chunk(SEGMENT_CHUNK_SIZE, Used, csp == top)
    else if p == top then Chunk(csp - top, Free, true)
    else FenceChunk(p)
  }

  ghost function AddedWords(mem: Memory, top: int, csp: int, e: int, t: int, size: nat, record: seq<int>): Memory
    requires size > TOP_FOOT_SIZE && |record| == 3
  {
    var m := (mem + Region(t, size))[t + 8 := size - TOP_FOOT_SIZE + 1][t + size - TOP_FOOT_SIZE + 8 := TOP_FOOT_SIZE]
             [csp + 8 := SEGMENT_CHUNK_SIZE + 3][csp + 16 := record[0]][csp + 24 := record[1]][csp + 32 := record[2]]
             + FenceWords(csp + SEGMENT_CHUNK_SIZE + 8, e);
    if csp == top then m
    else m[csp + 8 := SEGMENT_CHUNK_SIZE + 2][top + 8 := csp - top + 1][csp := csp - top]
  }

  function RecordPlace(top: int, topsize: nat): int {
    if topsize < MIN_CHUNK_SIZE then top else top + topsize
  }

  ghost predicate Added(h: Heap, t: int, size: nat, record: seq<int>, h': Heap) {
    && size > TOP_FOOT_SIZE && t % 8 == 0 && t > 0 && size % 8 == 0 && t + size < ADDRESS_LIMIT && |record| == 3
    && h.segs != []
    && var csp, e := RecordPlace(h.top, h.topsize), SegEnd(h.segs[0]);
    && h' == h.(mem := AddedWords(h.mem, h.top, csp, e, t, size, record),
                cs := AddedChunks(h.cs, h.top, csp, e, t, size),
                top := t, topsize := size - TOP_FOOT_SIZE, segs := [Segment(t, size)] + h.segs)
  }

  ghost function AddedLoose(h: Heap): set<int> {
    if h.topsize < MIN_CHUNK_SIZE then {} else {h.top}
  }

  /** add_segment */
  lemma AddSegment(h: Heap, t: int, size: nat, record: seq<int>, h': Heap)
    requires Added(h, t, size, record, h') && Disjoint(h.mem, h.segs, t, size)
    requires HeapOk(h, {})
    ensures HeapOk(h', AddedLoose(h)) && Kept(h, h', h.live.Keys)
  {
    hide *;
    HeapParts(h, {});
    AddedShape(h, t, size, record, h');
    ChunksOutsideRegion(h, {}, t, size);
    var e := SegEnd(h.segs[0]);
    TopEnd(h, {}, e);
    var csp := RecordPlace(h.top, h.topsize);
    AddedCore(h, csp, e, t, size, record, h');
    AddedRest(h, csp, e, t, size, h');
    AddedSegs(h, csp, e, t, size, h');
    HeapWhole(h', AddedLoose(h));
  }

  lemma AddedShape(h: Heap, t: int, size: nat, record: seq<int>, h': Heap)
    requires Added(h, t, size, record, h')
    ensures size > 0 && h.segs != [] && |record| == 3 && size > TOP_FOOT_SIZE
    ensures AddedFields(h, RecordPlace(h.top, h.topsize), SegEnd(h.segs[0]), t, size, h')
    ensures h'.mem == AddedWords(h.mem, h.top, RecordPlace(h.top, h.topsize), SegEnd(h.segs[0]), t, size, record)
  {}

  /** Everything but the memory. */
  ghost predicate AddedFields(h: Heap, csp: int, e: int, t: int, size: nat, h': Heap) {
    && size > TOP_FOOT_SIZE && t % 8 == 0 && t > 0 && size % 8 == 0 && t + size < ADDRESS_LIMIT
    && h.segs != [] && csp == RecordPlace(h.top, h.topsize) && e == SegEnd(h.segs[0])
    && h'.cs == AddedChunks(h.cs, h.top, csp, e, t, size)
    && h'.top == t && h'.topsize == size - TOP_FOOT_SIZE && h'.segs == [Segment(t, size)] + h.segs
    && h'.live == h.live && h'.small == h.small && h'.large == h.large && h'.dv == h.dv && h'.dvsize == h.dvsize
  }

  /** The new chunks, one by one. */
  ghost predicate AddedLook(cs: Chunks, top: int, csp: int, e: int, t: int, size: nat) {
    && e % 8 == 0 && csp % 8 == 0 && top % 8 == 0 && top <= csp <= e - 64 && size > TOP_FOOT_SIZE && t % 8 == 0 && size % 8 == 0
    && top > 0 && t > 0
    && (top == csp || csp - top >= MIN_CHUNK_SIZE)
    && (forall p | csp + SEGMENT_CHUNK_SIZE <= p < e - 8 && p % 8 == 0 :: p in cs && cs[p] == FenceChunk(p))
    && csp in cs && cs[csp] == Chunk(SEGMENT_CHUNK_SIZE, Used, csp == top)
    && (csp != top ==> top in cs && cs[top] == Chunk(csp - top, Free, true))
    && e - 8 in cs && cs[e - 8].kind.End? && cs[e - 8].size == 8
    && t in cs && cs[t] == Chunk(size - TOP_FOOT_SIZE, Top, true)
    && t + size - TOP_FOOT_SIZE in cs && cs[t + size - TOP_FOOT_SIZE] == Chunk(TOP_FOOT_SIZE - 8, Tail, false)
    && t + size - 8 in cs && cs[t + size - 8] == Chunk(8, End, false)
  }

  lemma AddedLooks(h: Heap, csp: int, e: int, t: int, size: nat, h': Heap)
    requires AddedFields(h, csp, e, t, size, h') && AtEnd(h, e)
    requires forall p <- h.cs :: (p < t && p + h.cs[p].size <= t) || t + size <= p
    ensures AddedLook(h'.cs, h.top, csp, e, t, size)
    ensures forall p <- h'.cs :: p in AddedNews(h.top, csp, e, t, size) || (p in h.cs && !(h.top <= p < e - 8) && h'.cs[p] == h.cs[p])
    ensures forall p <- h.cs | !(h.top <= p < e - 8) :: p in h'.cs
    ensures h.top in h.cs && (e <= t || t + size <= h.top)
  {
    assert h.top in h.cs && e - 8 in h.cs;
    assert t + size <= h.top || e <= t;
  }

  lemma AddedPlace(cs: Chunks, top: int, csp: int, e: int, t: int, size: nat, p: int)
    requires AddedLook(cs, top, csp, e, t, size) && p in AddedNews(top, csp, e, t, size)
    ensures p in cs && cs[p].size > 0 && (cs[p].kind.Top? ==> p == t) && (cs[p].kind.Free? ==> p == top && top != csp)
    ensures (top <= p && p + cs[p].size <= e - 8) || (t <= p && p + cs[p].size <= t + size)
  {}

  lemma AddedPair(cs: Chunks, top: int, csp: int, e: int, t: int, size: nat, p: int, q: int)
    requires AddedLook(cs, top, csp, e, t, size) && (e <= t || t + size <= top)
    requires p in AddedNews(top, csp, e, t, size) && q in AddedNews(top, csp, e, t, size) && p < q
    ensures p in cs && p + cs[p].size <= q
  {}

  lemma AddedReplaced(h: Heap, csp: int, e: int, t: int, size: nat, h': Heap)
    requires AddedLook(h'.cs, h.top, csp, e, t, size) && AtEnd(h, e)
    requires forall p <- h.cs :: (p < t && p + h.cs[p].size <= t) || t + size <= p
    requires forall p <- h'.cs :: p in AddedNews(h.top, csp, e, t, size) || (p in h.cs && !(h.top <= p < e - 8) && h'.cs[p] == h.cs[p])
    requires forall p <- h.cs | !(h.top <= p < e - 8) :: p in h'.cs
    requires e <= t || t + size <= h.top
    ensures Replaced(h.cs, h'.cs, h.top, e - 8, AddedNews(h.top, csp, e, t, size))
  {
    var news := AddedNews(h.top, csp, e, t, size);
    forall p <- news ensures p in h'.cs && (h.top <= p < e - 8 || t <= p < t + size) { AddedPlace(h'.cs, h.top, csp, e, t, size, p); }
    assert SameToPredecessor(h.cs[h.top], h'.cs[h.top]);
    hide AddedLook, AddedNews;
    assert forall p <- h.cs | !(h.top <= p < e - 8) :: p !in news;
    assert forall p <- h.cs | h.top <= p < e - 8 :: p + h.cs[p].size <= e - 8;
    hide AtEnd;
  }

  lemma AddedApart(cs: Chunks, top: int, csp: int, e: int, t: int, size: nat, cs': Chunks)
    requires AddedLook(cs', top, csp, e, t, size) && (e <= t || t + size <= top)
    requires forall p <- cs :: (p < t && p + cs[p].size <= t) || t + size <= p
    requires forall p <- cs :: p < top ==> p + cs[p].size <= top
    requires forall p <- cs' :: p in AddedNews(top, csp, e, t, size) || (p in cs && !(top <= p < e - 8) && cs'[p] == cs[p])
    ensures NewsApart(cs', AddedNews(top, csp, e, t, size))
  {
    hide *;
    var news := AddedNews(top, csp, e, t, size);
    forall p, q | p in news && q in cs' && p in cs' ensures (p < q ==> p + cs'[p].size <= q) && (q < p ==> q + cs'[q].size <= p) {
      AddedPlace(cs', top, csp, e, t, size, p);
      if q in news {
        if p < q { AddedPair(cs', top, csp, e, t, size, p, q); }
        if q < p { AddedPair(cs', top, csp, e, t, size, q, p); }
      }
    }
    ApartWhole(cs', news);
  }

  lemma ApartWhole(cs: Chunks, news: set<int>)
    requires forall p, q | p in news && q in cs && p in cs :: (p < q ==> p + cs[p].size <= q) && (q < p ==> q + cs[q].size <= p)
    ensures NewsApart(cs, news)
  {}

  lemma AddedCore(h: Heap, csp: int, e: int, t: int, size: nat, record: seq<int>, h': Heap)
    requires AddedFields(h, csp, e, t, size, h') && AtEnd(h, e) && |record| == 3
    requires Mapped(h.mem, h.top, e - 8 - h.top)
    requires h'.mem == AddedWords(h.mem, h.top, csp, e, t, size, record)
    requires forall p <- h.cs :: (p < t && p + h.cs[p].size <= t) || t + size <= p
    requires Disjoint(h.mem, h.segs, t, size) && CoreOk(h.mem, h.cs)
    ensures CoreOk(h'.mem, h'.cs) && FirstWord(h'.mem, t)
    ensures AddedLook(h'.cs, h.top, csp, e, t, size)
    ensures Replaced(h.cs, h'.cs, h.top, e - 8, AddedNews(h.top, csp, e, t, size)) && WordsKept(h.mem, h'.mem, h.cs, h.top, e - 8)
  {
    hide *;
    AddedLooks(h, csp, e, t, size, h');
    EndThere(h, e);
    AddedReplaced(h, csp, e, t, size, h');
    InFrontOf(h.mem, h.cs, h.top);
    AddedApart(h.cs, h.top, csp, e, t, size, h'.cs);
    AddedMemory(h, csp, e, t, size, record, h');
    AddedNewsOk(h'.mem, h'.cs, h.top, csp, e, t, size);
    ReplacedOk(h.mem, h.cs, h'.mem, h'.cs, h.top, e - 8, AddedNews(h.top, csp, e, t, size));
  }

  lemma InFrontOf(mem: Memory, cs: Chunks, p: int)
    requires p in cs && CoreOk(mem, cs)
    ensures forall q <- cs :: q < p ==> q + cs[q].size <= p
  {}

  ghost predicate AddedHeads(mem: Memory, top: int, csp: int, e: int, t: int, size: nat) {
    && (forall a | top + 8 <= a < e :: a in mem) && (forall a | t <= a < t + size :: a in mem)
    && (forall a | csp + SEGMENT_CHUNK_SIZE + 8 <= a < e && a % 8 == 0 :: a in mem && mem[a] == FENCEPOST_HEAD)
    && t + 8 in mem && mem[t + 8] == size - TOP_FOOT_SIZE + 1
    && t + size - TOP_FOOT_SIZE + 8 in mem && mem[t + size - TOP_FOOT_SIZE + 8] == TOP_FOOT_SIZE
    && csp + 8 in mem && mem[csp + 8] == SEGMENT_CHUNK_SIZE + (if csp == top then 3 else 2)
    && (csp != top ==> top + 8 in mem && mem[top + 8] == csp - top + 1 && csp in mem && mem[csp] == csp - top)
  }

  lemma AddedMemory(h: Heap, csp: int, e: int, t: int, size: nat, record: seq<int>, h': Heap)
    requires AddedLook(h'.cs, h.top, csp, e, t, size) && (e <= t || t + size <= h.top) && |record| == 3
    requires e - 8 in h.cs
    requires Mapped(h.mem, h.top, e - 8 - h.top) && Disjoint(h.mem, h.segs, t, size)
    requires h'.mem == AddedWords(h.mem, h.top, csp, e, t, size, record)
    ensures WordsKept(h.mem, h'.mem, h.cs, h.top, e - 8) && FirstWord(h'.mem, t)
    ensures AddedHeads(h'.mem, h.top, csp, e, t, size)
  {
    AddedBounds(h'.cs, h.top, csp, e, t, size);
    hide *;
    DisjointRegion(h, t, size);
    AddedWordsKept(h.mem, h.top, csp, e, t, size, record);
    AddedWordsThere(h.mem, h.top, csp, e, t, size, record);
    KeptWords(h.mem, h'.mem, h.cs, h.top, e, t, size);
    AddedHeadsThere(h.mem, h.top, csp, e, t, size, record);
  }

  lemma EndThere(h: Heap, e: int)
    requires AtEnd(h, e)
    ensures e - 8 in h.cs
  {}

  lemma DisjointRegion(h: Heap, t: int, size: nat)
    requires Disjoint(h.mem, h.segs, t, size)
    ensures h.mem.Keys !! Region(t, size).Keys
  {}

  lemma AddedBounds(cs: Chunks, top: int, csp: int, e: int, t: int, size: nat)
    requires AddedLook(cs, top, csp, e, t, size)
    ensures e % 8 == 0 && csp % 8 == 0 && top % 8 == 0 && top <= csp <= e - 64 && size > TOP_FOOT_SIZE && t % 8 == 0 && size % 8 == 0
    ensures top == csp || csp - top >= MIN_CHUNK_SIZE
  {}

  lemma AddedWordsKept(mem: Memory, top: int, csp: int, e: int, t: int, size: nat, record: seq<int>)
    requires top <= csp <= e - 64 && size > TOP_FOOT_SIZE && |record| == 3 && (top == csp || csp - top >= MIN_CHUNK_SIZE)
    requires mem.Keys !! Region(t, size).Keys
    ensures var m' := AddedWords(mem, top, csp, e, t, size, record);
      && mem.Keys <= m'.Keys
      && (forall a <- mem | a < top + 8 || a >= e :: m'[a] == mem[a])
  {
    var m' := AddedWords(mem, top, csp, e, t, size, record);
    assert t + 8 in Region(t, size) && t + size - TOP_FOOT_SIZE + 8 in Region(t, size);
    forall a <- mem | a < top + 8 || a >= e ensures m'[a] == mem[a] {
      assert a !in Region(t, size);
      assert a !in FenceWords(csp + SEGMENT_CHUNK_SIZE + 8, e);
    }
  }

  lemma KeptWords(mem: Memory, mem': Memory, cs: Chunks, top: int, e: int, t: int, size: nat)
    requires mem.Keys <= mem'.Keys && (forall a <- mem | a < top + 8 || a >= e :: mem'[a] == mem[a])
    requires top + 8 <= e - 8 && forall a | t <= a < t + size :: a in mem'
    requires size > TOP_FOOT_SIZE && e - 8 in cs
    ensures WordsKept(mem, mem', cs, top, e - 8) && FirstWord(mem', t)
  {}

  lemma AddedWordsThere(mem: Memory, top: int, csp: int, e: int, t: int, size: nat, record: seq<int>)
    requires top <= csp <= e - 64 && size > TOP_FOOT_SIZE && |record| == 3
    requires Mapped(mem, top, e - 8 - top)
    ensures var m' := AddedWords(mem, top, csp, e, t, size, record);
      && (forall a | top + 8 <= a < e :: a in m') && (forall a | t <= a < t + size :: a in m')
  {
    forall a | t <= a < t + size ensures a in AddedWords(mem, top, csp, e, t, size, record) {
      assert a in Region(t, size);
    }
  }

  lemma AddedHeadsThere(mem: Memory, top: int, csp: int, e: int, t: int, size: nat, record: seq<int>)
    requires e % 8 == 0 && csp % 8 == 0 && top % 8 == 0 && t % 8 == 0 && size % 8 == 0
    requires top <= csp <= e - 64 && size > TOP_FOOT_SIZE && |record| == 3 && (top == csp || csp - top >= MIN_CHUNK_SIZE)
    requires e <= t || t + size <= top
    requires var m' := AddedWords(mem, top, csp, e, t, size, record);
      && (forall a | top + 8 <= a < e :: a in m') && (forall a | t <= a < t + size :: a in m')
    ensures AddedHeads(AddedWords(mem, top, csp, e, t, size, record), top, csp, e, t, size)
  {
    hide Region;
    var m' := AddedWords(mem, top, csp, e, t, size, record);
    forall a | csp + SEGMENT_CHUNK_SIZE + 8 <= a < e && a % 8 == 0 ensures a in m' && m'[a] == FENCEPOST_HEAD {
      assert a in FenceWords(csp + SEGMENT_CHUNK_SIZE + 8, e);
    }
  }

  lemma AddedNewsOk(mem: Memory, cs: Chunks, top: int, csp: int, e: int, t: int, size: nat)
    requires AddedLook(cs, top, csp, e, t, size) && AddedHeads(mem, top, csp, e, t, size)
    ensures forall p <- AddedNews(top, csp, e, t, size) :: p in cs && ChunkOk(mem, cs, p)
    ensures e - 8 in cs && ChunkOk(mem, cs, e - 8)
  {
    forall p <- AddedNews(top, csp, e, t, size) ensures p in cs && ChunkOk(mem, cs, p) {
      if p == csp {
        AddedRecordOk(mem, cs, top, csp, e, t, size);
      } else if p == top {
        AddedFreeOk(mem, cs, top, csp, e, t, size);
      } else if p in {t, t + size - TOP_FOOT_SIZE, t + size - 8} {
        AddedTopOk(mem, cs, top, csp, e, t, size, p);
      } else {
        AddedFenceOk(mem, cs, top, csp, e, t, size, p);
      }
    }
  }

  lemma AddedRecordOk(mem: Memory, cs: Chunks, top: int, csp: int, e: int, t: int, size: nat)
    requires AddedLook(cs, top, csp, e, t, size) && AddedHeads(mem, top, csp, e, t, size)
    ensures csp in cs && ChunkOk(mem, cs, csp)
  {
    assert cs[csp + SEGMENT_CHUNK_SIZE] == FenceChunk(csp + SEGMENT_CHUNK_SIZE);
  }

  lemma AddedFreeOk(mem: Memory, cs: Chunks, top: int, csp: int, e: int, t: int, size: nat)
    requires AddedLook(cs, top, csp, e, t, size) && AddedHeads(mem, top, csp, e, t, size) && top != csp
    ensures top in cs && ChunkOk(mem, cs, top)
  {}

  lemma AddedTopOk(mem: Memory, cs: Chunks, top: int, csp: int, e: int, t: int, size: nat, p: int)
    requires AddedLook(cs, top, csp, e, t, size) && AddedHeads(mem, top, csp, e, t, size)
    requires p == t || p == t + size - TOP_FOOT_SIZE || p == t + size - 8
    ensures p in cs && ChunkOk(mem, cs, p)
  {
    hide FenceChunk;
  }

  lemma AddedFenceOk(mem: Memory, cs: Chunks, top: int, csp: int, e: int, t: int, size: nat, p: int)
    requires AddedLook(cs, top, csp, e, t, size) && AddedHeads(mem, top, csp, e, t, size)
    requires csp + SEGMENT_CHUNK_SIZE <= p < e - 8 && p % 8 == 0
    ensures p in cs && ChunkOk(mem, cs, p)
  {
    var n := p + 8;
    assert n < e - 8 ==> n in cs && cs[n] == FenceChunk(n);
    assert n == e - 8 || n < e - 8;
    assert mem[n] == FENCEPOST_HEAD;
  }

  lemma AddedRest(h: Heap, csp: int, e: int, t: int, size: nat, h': Heap)
    requires AddedFields(h, csp, e, t, size, h') && AtEnd(h, e) && AddedLook(h'.cs, h.top, csp, e, t, size)
    requires Replaced(h.cs, h'.cs, h.top, e - 8, AddedNews(h.top, csp, e, t, size)) && WordsKept(h.mem, h'.mem, h.cs, h.top, e - 8)
    requires forall p <- h.cs :: (p < t && p + h.cs[p].size <= t) || t + size <= p
    requires CoreOk(h.mem, h.cs) && BinsOk(h, {}) && TopOk(h) && LiveOk(h)
    ensures BinsOk(h', AddedLoose(h)) && TopOk(h') && LiveOk(h') && Kept(h, h', h.live.Keys)
  {
    hide *;
    var news := AddedNews(h.top, csp, e, t, size);
    AddedTops(h, csp, e, t, size, h');
    forall p <- news
      ensures p in h'.cs && (h'.cs[p].kind.Top? ==> p == t) && (h'.cs[p].kind.Free? ==> p == h.top && csp != h.top)
      ensures p in h.cs ==> h.top <= p < e - 8
    {
      AddedPlace(h'.cs, h.top, csp, e, t, size, p);
    }
    AddedFree(h, csp, news, h');
    ReplacedRest(h, h', {}, AddedLoose(h), h.top, e - 8, news);
  }

  lemma AddedTops(h: Heap, csp: int, e: int, t: int, size: nat, h': Heap)
    requires AddedFields(h, csp, e, t, size, h') && AtEnd(h, e) && AddedLook(h'.cs, h.top, csp, e, t, size)
    ensures h'.small == h.small && h'.large == h.large && h'.dv == h.dv && h'.dvsize == h.dvsize && h'.live == h.live
    ensures h'.top == t && t in h'.cs && h'.cs[t].kind.Top? && h'.cs[t].size == h'.topsize && h.top < e - 8
    ensures csp == RecordPlace(h.top, h.topsize) && h.top in AddedNews(h.top, csp, e, t, size) && csp in h'.cs
    ensures size > 0 && (csp != h.top ==> FreeAt(h', h.top))
    ensures forall p <- h.cs | h.top <= p < e - 8 :: !h.cs[p].kind.Free? && !h.cs[p].kind.Used?
  {}

  lemma AddedFree(h: Heap, csp: int, news: set<int>, h': Heap)
    requires csp == RecordPlace(h.top, h.topsize) && h.top in news && (csp != h.top ==> FreeAt(h', h.top))
    requires forall p <- news :: p in h'.cs && (h'.cs[p].kind.Free? ==> p == h.top && csp != h.top)
    ensures forall p :: p in AddedLoose(h) <==> if p in news then FreeAt(h', p) else false
  {}

  lemma AddedSegs(h: Heap, csp: int, e: int, t: int, size: nat, h': Heap)
    requires AddedFields(h, csp, e, t, size, h') && AtEnd(h, e) && AddedLook(h'.cs, h.top, csp, e, t, size)
    requires Replaced(h.cs, h'.cs, h.top, e - 8, AddedNews(h.top, csp, e, t, size)) && WordsKept(h.mem, h'.mem, h.cs, h.top, e - 8)
    requires FirstWord(h'.mem, t) && Disjoint(h.mem, h.segs, t, size) && SegsOk(h)
    ensures SegsOk(h')
  {
    hide *;
    SegsParts(h);
    SegsApart(h);
    var news := AddedNews(h.top, csp, e, t, size);
    forall j | 0 <= j < |h.segs| ensures h.segs[j].size > TOP_FOOT_SIZE { SegSize(h, h.segs[j]); }
    AddedSegsList(h, csp, e, t, size, h');
    TopInFront(h, e);
    forall j | 0 <= j < |h.segs| ensures SegOk(h', h.segs[j]) {
      EitherWay(h, 0, j);
      AddedOneSeg(h, csp, e, t, size, news, h', j);
    }
    AddedNewSeg(h, csp, e, t, size, h');
    forall p <- news ensures p in h'.cs && InSomeSegment(h', p) { AddedInside(h, csp, e, t, size, h', p); }
    GrownInside(h, h', 1, h.top, e - 8, news);
    SegsWhole(h');
  }

  lemma AddedSegsList(h: Heap, csp: int, e: int, t: int, size: nat, h': Heap)
    requires AddedFields(h, csp, e, t, size, h') && Disjoint(h.mem, h.segs, t, size)
    requires forall j, k | 0 <= j < k < |h.segs| :: SegApart(h.segs[j], h.segs[k])
    ensures h.segs != [] && e == SegEnd(h.segs[0])
    ensures |h'.segs| == |h.segs| + 1 && h'.segs[0] == Segment(t, size)
    ensures forall j | 0 <= j < |h.segs| :: h'.segs[j + 1] == h.segs[j] && Wider(h.segs[j], h'.segs[j + 1])
    ensures forall j | 0 < j < |h'.segs| :: h'.segs[j] == h.segs[j - 1]
    ensures forall j, k | 0 <= j < k < |h'.segs| :: SegApart(h'.segs[j], h'.segs[k])
    ensures h'.segs != [] && h'.segs[0].base <= h'.top && h'.top + h'.topsize + TOP_FOOT_SIZE == SegEnd(h'.segs[0])
  {
    forall j, k | 0 <= j < k < |h'.segs| ensures SegApart(h'.segs[j], h'.segs[k]) {
      if j > 0 { assert SegApart(h.segs[j - 1], h.segs[k - 1]); }
    }
  }

  lemma TopInFront(h: Heap, e: int)
    requires AtEnd(h, e)
    ensures h.top < e - 8
  {}

  lemma AddedOneSeg(h: Heap, csp: int, e: int, t: int, size: nat, news: set<int>, h': Heap, j: nat)
    requires j < |h.segs| && e == SegEnd(h.segs[0]) && h.segs[0].base <= h.top <= e - 8
    requires Replaced(h.cs, h'.cs, h.top, e - 8, news) && WordsKept(h.mem, h'.mem, h.cs, h.top, e - 8)
    requires AddedLook(h'.cs, h.top, csp, e, t, size)
    requires SegOk(h, h.segs[j]) && (j == 0 || SegApart(h.segs[0], h.segs[j]))
    ensures SegOk(h', h.segs[j])
  {}

  lemma AddedNewSeg(h: Heap, csp: int, e: int, t: int, size: nat, h': Heap)
    requires AddedFields(h, csp, e, t, size, h') && AddedLook(h'.cs, h.top, csp, e, t, size) && FirstWord(h'.mem, t)
    ensures SegOk(h', Segment(t, size))
  {
    hide AddedChunks, FenceChunk, RecordPlace;
  }

  lemma AddedInside(h: Heap, csp: int, e: int, t: int, size: nat, h': Heap, p: int)
    requires AddedLook(h'.cs, h.top, csp, e, t, size) && h.segs != [] && e == SegEnd(h.segs[0]) && h.segs[0].base <= h.top
    requires |h'.segs| == |h.segs| + 1 && h'.segs[0] == Segment(t, size) && h'.segs[1] == h.segs[0]
    requires p in AddedNews(h.top, csp, e, t, size)
    ensures p in h'.cs && InSomeSegment(h', p)
  {
    if p in {t, t + size - TOP_FOOT_SIZE, t + size - 8} {
      assert Inside(h'.cs, h'.segs[0], p);
    } else {
      assert Inside(h'.cs, h'.segs[1], p);
    }
  }
}
