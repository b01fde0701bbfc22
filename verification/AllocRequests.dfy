/** What one request does to the heap as a whole: the reasoning behind the methods of Arena. */
module Requests {
  import opened Core
  import opened Heap
  import opened Steps
  import opened Growth
  import opened TreeIndex
  import opened Coalesce
  import SmallBins
  import TreeBins
  import Rings

  const DEFAULT_GRANULARITY: nat := 131072
  const STATE_CHUNK_SIZE: nat := 872

  ghost function CreatedChunks(t: int, size: nat): Chunks
    requires size > STATE_CHUNK_SIZE + TOP_FOOT_SIZE
  {
    map[t := Chunk(STATE_CHUNK_SIZE, Used, true),
        t + STATE_CHUNK_SIZE := Chunk(size - STATE_CHUNK_SIZE - TOP_FOOT_SIZE, Top, true),
        t + size - TOP_FOOT_SIZE := Chunk(TOP_FOOT_SIZE - 8, Tail, false),
        t + size - 8 := Chunk(8, End, false)]
  }

  lemma CreatedOk(t: int, h: Heap)
    requires t > 0 && t % 8 == 0 && t + DEFAULT_GRANULARITY < ADDRESS_LIMIT
    requires h.cs == CreatedChunks(t, DEFAULT_GRANULARITY) && h.segs == [Segment(t, DEFAULT_GRANULARITY)]
    requires h.small == map[] && h.large == map[] && h.dvsize == 0 && h.live == map[]
    requires h.top == t + STATE_CHUNK_SIZE && h.topsize == DEFAULT_GRANULARITY - STATE_CHUNK_SIZE - TOP_FOOT_SIZE
    requires h.mem == Region(t, DEFAULT_GRANULARITY)[t + 8 := STATE_CHUNK_SIZE + 3][h.top + 8 := h.topsize + 1]
                        [h.top + h.topsize + 8 := TOP_FOOT_SIZE]
    ensures HeapOk(h, {})
  {
    hide *;
    CreatedCore(t, h);
    CreatedRest(t, h);
    HeapWhole(h, {});
  }

  lemma CreatedCore(t: int, h: Heap)
    requires t > 0 && t % 8 == 0 && h.cs == CreatedChunks(t, DEFAULT_GRANULARITY)
    requires h.mem == Region(t, DEFAULT_GRANULARITY)[t + 8 := STATE_CHUNK_SIZE + 3]
                        [t + STATE_CHUNK_SIZE + 8 := DEFAULT_GRANULARITY - STATE_CHUNK_SIZE - TOP_FOOT_SIZE + 1]
                        [t + DEFAULT_GRANULARITY - TOP_FOOT_SIZE + 8 := TOP_FOOT_SIZE]
    ensures CoreOk(h.mem, h.cs)
  {
    var mn, tail, e := t + STATE_CHUNK_SIZE, t + DEFAULT_GRANULARITY - TOP_FOOT_SIZE, t + DEFAULT_GRANULARITY - 8;
    forall a | t <= a < t + DEFAULT_GRANULARITY ensures a in h.mem { assert a in Region(t, DEFAULT_GRANULARITY); }
    assert HeadAt(h.mem, t, h.cs[t]) && HeadAt(h.mem, mn, h.cs[mn]) && HeadAt(h.mem, tail, h.cs[tail]);
    hide Region, HeadAt;
    assert ChunkOk(h.mem, h.cs, t) by { assert Mapped(h.mem, t, STATE_CHUNK_SIZE); }
    assert ChunkOk(h.mem, h.cs, mn) by { assert Mapped(h.mem, mn, h.cs[mn].size); }
    assert ChunkOk(h.mem, h.cs, tail) by { assert Mapped(h.mem, tail, TOP_FOOT_SIZE - 8); }
    assert ChunkOk(h.mem, h.cs, e);
  }

  lemma CreatedRest(t: int, h: Heap)
    requires t > 0 && t % 8 == 0 && t + DEFAULT_GRANULARITY < ADDRESS_LIMIT
    requires h.cs == CreatedChunks(t, DEFAULT_GRANULARITY) && h.segs == [Segment(t, DEFAULT_GRANULARITY)]
    requires h.small == map[] && h.large == map[] && h.dvsize == 0 && h.live == map[]
    requires h.top == t + STATE_CHUNK_SIZE && h.topsize == DEFAULT_GRANULARITY - STATE_CHUNK_SIZE - TOP_FOOT_SIZE
    requires Region(t, DEFAULT_GRANULARITY).Keys <= h.mem.Keys
    ensures BinsOk(h, {}) && TopOk(h) && LiveOk(h) && SegsOk(h)
  {
    forall a | t <= a < t + 8 ensures a in h.mem { assert a in Region(t, DEFAULT_GRANULARITY).Keys; }
    assert SegOk(h, h.segs[0]);
    forall p | p in h.cs ensures InSomeSegment(h, p) { assert Inside(h.cs, h.segs[0], p); }
  }

  /** A block of at least nb bytes was cut out of free space; no block of the user was touched. */
  ghost predicate Carved(h: Heap, h': Heap, p: int, nb: nat) {
    && Kept(h, h', h.live.Keys) && h.live.Keys <= h'.live.Keys && p !in h'.live
    && p > 0 && p in h'.cs && h'.cs[p].kind.Used? && h'.cs[p].size >= nb
  }

  lemma Positive(h: Heap, loose: set<int>, p: int)
    requires p in h.cs && HeapOk(h, loose)
    ensures p > 0
  {
    assert ChunkOk(h.mem, h.cs, p);
  }

  /** Moving chunks between bins before and after does not touch anything. */
  lemma KeptAround(h: Heap, h1: Heap, h2: Heap, h': Heap, blocks: set<int>)
    requires h1.mem == h.mem && h1.cs == h.cs && Kept(h1, h2, blocks) && h'.mem == h2.mem && h'.cs == h2.cs
    ensures Kept(h, h', blocks)
  {}

  /** There is a chunk behind a free chunk, with a head. */
  lemma Behind(h: Heap, loose: set<int>, p: int, n: int)
    requires FreeAt(h, p) && n == p + h.cs[p].size && HeapOk(h, loose)
    ensures p < n && n in h.cs && n + 8 in h.mem
  {
    hide *;
    HeapParts(h, loose);
    FreeKind(h, p);
    ChunkRange(h.mem, h.cs, p, n);
    HeadThere(h.mem, n, h.cs[n]);
  }

  lemma FreeKind(h: Heap, p: int)
    requires FreeAt(h, p)
    ensures p in h.cs && h.cs[p].kind.Free? && !h.cs[p].kind.End? && !h.cs[p].kind.Tail? && !h.cs[p].kind.Fence?
  {}

  lemma HeadThere(mem: Memory, p: int, c: Chunk)
    requires HeadAt(mem, p, c)
    ensures p + 8 in mem && mem[p + 8] == Head(c)
  {}

  lemma DvUnbinned(h: Heap, loose: set<int>)
    requires h.dvsize > 0 && HeapOk(h, loose)
    ensures h.dv !in h.small && h.dv !in h.large
  {}

  lemma TopNumbers(h: Heap, loose: set<int>, n: int)
    requires n == h.top + h.topsize && HeapOk(h, loose)
    ensures h.top in h.cs && h.cs[h.top].kind.Top? && h.cs[h.top].size == h.topsize && h.top % 8 == 0 && n in h.cs && h.top < n
  {
    hide *;
    HeapParts(h, loose);
    TopFacts(h, n);
    assert h.cs[h.top].kind.Top?;
    ChunkRange(h.mem, h.cs, h.top, n);
  }

  lemma InBins(h: Heap, loose: set<int>, p: int)
    requires p in h.small || p in h.large
    requires HeapOk(h, loose)
    ensures FreeAt(h, p) && p !in loose && (h.dvsize > 0 ==> p != h.dv)
    ensures p in h.small ==> h.cs[p].size == h.small[p]
    ensures p in h.large ==> h.cs[p].size == h.large[p]
  {}

  lemma AnyTreeIs(tb: TreeBins.TreeBins)
    requires tb.Valid() && tb.Chunks() != map[]
    ensures exists i :: 0 <= i < |tb.treemap| && tb.treemap[i]
  {
    hide Rings.Valid;
    TreeBins.TreemapIff(tb.B());
    TreeBins.ContentsEmpty(tb.node);
  }

  /** Every chunk in the bins is smaller than nb. */
  ghost predicate NoneBinned(h: Heap, nb: nat) {
    (forall p <- h.small :: h.small[p] < nb) && forall p <- h.large :: h.large[p] < nb
  }

  /** A smallest large free chunk of at least nb bytes. */
  ghost predicate BestInTree(h: Heap, nb: nat, p: int) {
    p in h.large && h.large[p] >= nb && p in h.cs && forall q <- h.large | h.large[q] >= nb :: h.large[p] <= h.large[q]
  }

  lemma LargeFit(h: Heap, loose: set<int>, nb: nat, v: int, rsize: nat)
    requires MIN_LARGE_SIZE <= nb < SIZE_T_RANGE && HeapOk(h, loose)
    requires v == 0 ==> forall y <- h.large :: h.large[y] < nb
    requires v != 0 ==> v in h.large && h.large[v] >= nb && rsize == h.large[v] - nb
    requires v != 0 ==> forall y <- h.large | h.large[y] >= nb :: h.large[v] <= h.large[y]
    ensures v != 0 ==> BestInTree(h, nb, v) && h.cs[v].size == h.large[v] && h.large[v] < ADDRESS_LIMIT
    ensures forall p | BestInTree(h, nb, p) :: h.large[p] == h.cs[p].size && v != 0 && h.large[p] == h.large[v]
    ensures h.dvsize < ADDRESS_LIMIT
  {
    if h.dvsize > 0 { FreeNumbers(h, loose, h.dv); }
    if v != 0 { FreeNumbers(h, loose, v); }
  }

  lemma SmallmapLength(sb: SmallBins.SmallBins)
    requires sb.Valid()
    ensures |sb.smallmap| == SmallBins.NSMALLBINS
  {}

  lemma NothingSmall(sb: SmallBins.SmallBins, nb: nat)
    requires sb.Valid() && nb % 8 == 0 && nb <= 256 && |sb.smallmap| == SmallBins.NSMALLBINS
    requires forall j | nb / 8 <= j < SmallBins.NSMALLBINS :: !sb.smallmap[j]
    ensures forall p <- sb.Chunks() :: sb.Chunks()[p] < nb
  {
    SmallBins.UnmarkedAbove(sb.L(), nb / 8);
  }

  lemma NotThere(m: map<int, nat>, p: int)
    requires p !in m
    ensures m - {p} == m
  {}

  // ---- The system ---------------------------------------------------------------------------------

  const CMFAIL: int := -1

  /** granularity_align(nb + TOP_FOOT_SIZE + 1), in size_t. */
  function MmapSize(nb: nat): nat {
    var req := (nb + TOP_FOOT_SIZE + 1) % SIZE_T_RANGE;
    (req + DEFAULT_GRANULARITY - 1) % SIZE_T_RANGE / DEFAULT_GRANULARITY * DEFAULT_GRANULARITY
  }

  lemma MmapSizeFits(nb: nat)
    requires nb < SIZE_T_RANGE && MmapSize(nb) > nb
    ensures MmapSize(nb) >= nb + TOP_FOOT_SIZE + 1 && MmapSize(nb) % 8 == 0
  {
    var req := (nb + TOP_FOOT_SIZE + 1) % SIZE_T_RANGE;
    var up := (req + DEFAULT_GRANULARITY - 1) % SIZE_T_RANGE;
    Granules(up);
  }

  lemma Granules(n: nat)
    ensures var g := n / DEFAULT_GRANULARITY * DEFAULT_GRANULARITY; g % 8 == 0 && n - DEFAULT_GRANULARITY < g <= n
  {
    var k := n / 131072;
    assert k * DEFAULT_GRANULARITY == 8 * (16384 * k);
  }

  /** The size to ask the system for wraps around. */
  predicate Overflows(nsize: nat) {
    MmapSize(ChunkSizeFor(nsize)) <= ChunkSizeFor(nsize)
  }

  /** The system fails, or hands out a region that overlaps nothing. */
  predicate MmapAnswer(mem: Memory, segs: seq<Segment>, size: nat, mm: int) {
    mm == CMFAIL || (mm > 0 && mm % 8 == 0 && mm + size < ADDRESS_LIMIT && Disjoint(mem, segs, mm, size))
  }

  lemma Failing(mem: Memory, segs: seq<Segment>, size: nat)
    ensures MmapAnswer(mem, segs, size, CMFAIL)
  {}

  lemma TopInFirst(h: Heap, i: nat)
    requires i < |h.segs| && h.segs[i].base <= h.top < SegEnd(h.segs[i]) && HeapOk(h, {})
    ensures i == 0
  {
    HeapParts(h, {});
    hide HeapOk, CoreOk, BinsOk, LiveOk, SegOk, InSomeSegment;
    assert forall j | 0 < j < |h.segs| :: SegApart(h.segs[0], h.segs[j]);
  }

  /** align_offset */
  function AlignOffset(a: int): int {
    (8 - a % 8) % 8
  }

  lemma {:induction false} FenceStep(mem: Memory, lo: int, hi: int)
    requires lo % 8 == 0 && hi % 8 == 0 && lo <= hi
    ensures (mem + FenceWords(lo, hi))[hi := FENCEPOST_HEAD] == mem + FenceWords(lo, hi + 8)
    ensures lo == hi ==> mem[hi := FENCEPOST_HEAD] == mem + FenceWords(lo, hi + 8)
  {
    var a, b := FenceWords(lo, hi)[hi := FENCEPOST_HEAD], FenceWords(lo, hi + 8);
    forall k ensures k in a <==> k in b {}
    assert a == b;
    assert lo == hi ==> FenceWords(lo, hi) == map[];
  }

  lemma SomeSegment(h: Heap)
    requires HeapOk(h, {})
    ensures h.segs != []
  {}

  lemma AtEndNumbers(h: Heap, e: int)
    requires AtEnd(h, e)
    ensures h.top % 8 == 0 && e % 8 == 0 && h.topsize % 8 == 0 && h.topsize >= 8 && h.top + h.topsize == e - 64
  {}

  /** The record of a segment lies in front of its end, or at the start of top where that is too short. */
  lemma RecordPlaced(h: Heap, e: int, asp: int, csp: int)
    requires asp == e - 71 + AlignOffset(e - 55) && csp == (if asp < h.top + MIN_CHUNK_SIZE then h.top else asp) && AtEnd(h, e)
    ensures csp == RecordPlace(h.top, h.topsize) && csp % 8 == 0 && e % 8 == 0 && csp + 48 <= e && h.top <= csp
  {
    AtEndNumbers(h, e);
  }

  lemma AddedIs(h: Heap, t: int, size: nat, csp: int, e: int, record: seq<int>, h': Heap)
    requires h.segs != [] && e == SegEnd(h.segs[0]) && csp == RecordPlace(h.top, h.topsize) && |record| == 3
    requires size > TOP_FOOT_SIZE && t > 0 && t % 8 == 0 && size % 8 == 0 && t + size < ADDRESS_LIMIT
    requires h' == h.(mem := AddedWords(h.mem, h.top, csp, e, t, size, record),
                      cs := AddedChunks(h.cs, h.top, csp, e, t, size),
                      top := t, topsize := size - TOP_FOOT_SIZE, segs := [Segment(t, size)] + h.segs)
    ensures Added(h, t, size, record, h')
  {}

  lemma AddedFirst(h: Heap, t: int, size: nat, csp: int, e: int, record: seq<int>, h': Heap)
    requires AtEnd(h, e) && h.segs != [] && e == SegEnd(h.segs[0]) && csp == RecordPlace(h.top, h.topsize) && csp != h.top
    requires Disjoint(h.mem, h.segs, t, size) && h.top in h.cs && HeapOk(h, {})
    requires Added(h, t, size, record, h')
    ensures h.top in h'.cs && h'.cs[h.top].size == csp - h.top && AddedLoose(h) == {h.top}
  {
    ChunksOutsideRegion(h, {}, t, size);
    hide HeapOk, AddedWords;
    AddedShape(h, t, size, record, h');
    AddedLooks(h, csp, e, t, size, h');
  }

  /** The record is a chunk in use. */
  lemma RecordThere(h: Heap, t: int, size: nat, csp: int, e: int, record: seq<int>, h': Heap)
    requires h.segs != [] && e == SegEnd(h.segs[0]) && csp == RecordPlace(h.top, h.topsize) && |record| == 3
    requires size > TOP_FOOT_SIZE && t > 0 && t % 8 == 0 && size % 8 == 0 && t + size < ADDRESS_LIMIT
    requires h' == h.(mem := AddedWords(h.mem, h.top, csp, e, t, size, record),
                      cs := AddedChunks(h.cs, h.top, csp, e, t, size),
                      top := t, topsize := size - TOP_FOOT_SIZE, segs := [Segment(t, size)] + h.segs)
    requires AtEnd(h, e) && Disjoint(h.mem, h.segs, t, size) && HeapOk(h, {})
    ensures csp in h'.cs && h'.cs[csp] == Chunk(SEGMENT_CHUNK_SIZE, Used, csp == h.top) && csp !in h.live
  {
    ChunksOutsideRegion(h, {}, t, size);
    HeapParts(h, {});
    AddedIs(h, t, size, csp, e, record, h');
    hide HeapOk, AddedWords, Added, CoreOk, BinsOk, SegsOk, AddedChunks;
    AddedShape(h, t, size, record, h');
    AddedLooks(h, csp, e, t, size, h');
    RecordLooks(h, csp, e, t, size, h');
  }

  lemma RecordLooks(h: Heap, csp: int, e: int, t: int, size: nat, h': Heap)
    requires AddedLook(h'.cs, h.top, csp, e, t, size) && csp == RecordPlace(h.top, h.topsize) && AtEnd(h, e) && LiveOk(h) && TopOk(h)
    ensures csp in h'.cs && h'.cs[csp] == Chunk(SEGMENT_CHUNK_SIZE, Used, csp == h.top) && csp !in h.live
  {}

  /** add_segment but for the last step: what is left of the old top is in no bin yet. */
  lemma RegionAdded(h: Heap, t: int, size: nat, csp: int, e: int, record: seq<int>, h': Heap)
    requires h.segs != [] && e == SegEnd(h.segs[0]) && csp == RecordPlace(h.top, h.topsize) && |record| == 3
    requires size > TOP_FOOT_SIZE && t > 0 && t % 8 == 0 && size % 8 == 0 && t + size < ADDRESS_LIMIT
    requires h' == h.(mem := AddedWords(h.mem, h.top, csp, e, t, size, record),
                      cs := AddedChunks(h.cs, h.top, csp, e, t, size),
                      top := t, topsize := size - TOP_FOOT_SIZE, segs := [Segment(t, size)] + h.segs)
    requires AtEnd(h, e) && Disjoint(h.mem, h.segs, t, size) && HeapOk(h, {})
    ensures HeapOk(h', if csp == h.top then {} else {h.top}) && Kept(h, h', h.live.Keys)
    ensures csp != h.top ==> h.top in h'.cs && h'.cs[h.top].size == csp - h.top
    ensures csp in h'.cs && h'.cs[csp] == Chunk(SEGMENT_CHUNK_SIZE, Used, csp == h.top) && csp !in h.live
  {
    RecordThere(h, t, size, csp, e, record, h');
    hide HeapOk, Kept, Disjoint, AddedWords, AddedChunks, Added;
    assert h.top in h.cs && (AddedLoose(h) == if csp == h.top then {} else {h.top});
    hide AtEnd, AddedLoose;
    AddedIs(h, t, size, csp, e, record, h');
    AddSegment(h, t, size, record, h');
    if csp != h.top {
      AddedFirst(h, t, size, csp, e, record, h');
    }
  }

  lemma SegBase(h: Heap, i: nat)
    requires i < |h.segs| && HeapOk(h, {})
    ensures var b := h.segs[i].base; b in h.cs && (h.cs[b].kind.Used? || h.cs[b].kind.Free? || h.cs[b].kind.Top?)
    ensures h.segs[i].base != h.top ==> !h.cs[h.segs[i].base].kind.Top?
  {
    assert SegOk(h, h.segs[i]);
    hide CoreOk, BinsOk, LiveOk, InSomeSegment;
  }

  // ---- Reading head words --------------------------------------------------------------------------

  function Chunksize(w: int): int {
    w - w % 4
  }

  predicate Cinuse(w: int) {
    w / 2 % 2 == 1
  }

  predicate Pinuse(w: int) {
    w % 2 == 1
  }

  /** A head word tells what the chunk is. */
  lemma HeadRead(h: Heap, loose: set<int>, p: int)
    requires p in h.cs && !h.cs[p].kind.End? && HeapOk(h, loose)
    ensures p + 8 in h.mem && h.mem[p + 8] == Head(h.cs[p]) && SizeOk(h.cs[p])
    ensures !h.cs[p].kind.Tail? ==> Chunksize(h.mem[p + 8]) == h.cs[p].size
    ensures Cinuse(h.mem[p + 8]) <==> InUse(h.cs[p].kind)
    ensures Pinuse(h.mem[p + 8]) <==> h.cs[p].pinuse
  {
    hide *;
    HeapParts(h, loose);
    ChunkHead(h.mem, h.cs, p);
    HeadMeans(h.cs[p]);
  }

  lemma ChunkHead(mem: Memory, cs: Chunks, p: int)
    requires p in cs && !cs[p].kind.End? && CoreOk(mem, cs)
    ensures p + 8 in mem && mem[p + 8] == Head(cs[p]) && SizeOk(cs[p])
  {
    assert ChunkOk(mem, cs, p);
  }

  lemma HeadMeans(c: Chunk)
    requires SizeOk(c)
    ensures !c.kind.Tail? ==> Chunksize(Head(c)) == c.size
    ensures (Cinuse(Head(c)) <==> InUse(c.kind)) && (Pinuse(Head(c)) <==> c.pinuse)
  {
    if c.kind.Tail? {
      TagBits(TOP_FOOT_SIZE, 0, 0);
    } else {
      TagBits(c.size, if InUse(c.kind) then 1 else 0, if c.pinuse then 1 else 0);
    }
  }

  lemma TagBits(size: nat, c: nat, p: nat)
    requires size % 8 == 0 && c <= 1 && p <= 1
    ensures var w := size + 2 * c + p; w - w % 4 == size && w / 2 % 2 == c && w % 2 == p
  {
    var k, w := size / 8, size + 2 * c + p;
    QuotientIs(w, 4, 2 * k, 2 * c + p);
    QuotientIs(w, 2, 4 * k + c, p);
    QuotientIs(4 * k + c, 2, 2 * k, c);
  }

  lemma QuotientIs(w: nat, d: nat, q: nat, r: nat)
    requires (d == 2 || d == 4) && w == d * q + r && r < d
    ensures w / d == q && w % d == r
  {}

  /** In front of hi there is a free chunk: its PINUSE_BIT is clear already. */
  lemma ClearAlready(h: Heap, loose: set<int>, p: int, hi: int)
    requires FreeAt(h, p) && hi == p + h.cs[p].size && HeapOk(h, loose)
    ensures hi in h.cs && !h.cs[hi].kind.End? && !h.cs[hi].pinuse && hi + 8 in h.mem
    ensures WithoutPinuse(h.mem[hi + 8]) == h.mem[hi + 8] && hi in h.mem && h.mem[hi] == h.cs[p].size
  {
    hide *;
    HeapParts(h, loose);
    FreeKind(h, p);
    ChunkRange(h.mem, h.cs, p, hi);
    ClearBit(h.mem, h.cs, p, hi);
  }

  lemma ClearBit(mem: Memory, cs: Chunks, p: int, n: int)
    requires p in cs && cs[p].kind.Free? && n in cs && HeadAt(mem, n, cs[n]) && SizeOk(cs[n])
    requires MayFollow(cs[p].kind, cs[n].kind) && cs[n].pinuse == InUse(cs[p].kind)
    ensures !cs[n].kind.End? && !cs[n].pinuse && n + 8 in mem && WithoutPinuse(mem[n + 8]) == mem[n + 8]
  {}

  lemma PrependReady(h: Heap, loose: set<int>, i: nat, hi: int)
    requires i < |h.segs| && h.segs[i].base in h.cs && HeapOk(h, loose)
    requires var b := h.segs[i].base; hi == if h.cs[b].kind.Used? then b else b + h.cs[b].size
    ensures hi in h.cs && !h.cs[hi].kind.End? && h.segs[i].base <= hi && hi + 8 in h.mem && hi in h.mem
  {
    hide *;
    HeapParts(h, loose);
    FirstChunk(h, i, hi);
    FirstThere(h, h.segs[i].base, hi);
  }

  lemma FirstThere(h: Heap, b: int, hi: int)
    requires FirstLooks(h, b, hi)
    ensures hi in h.cs && !h.cs[hi].kind.End? && b <= hi && hi + 8 in h.mem && hi in h.mem
  {}

  /** Where the remainder of a prepended region ends. */
  ghost predicate JoinsAt(cs: Chunks, b: int, hi: int, loose: set<int>) {
    b in cs && if cs[b].kind.Used? then hi == b && loose == {} else cs[b].kind.Free? && hi == b + cs[b].size && loose == {b}
  }

  lemma LooseJoins(cs: Chunks, b: int, hi: int, loose: set<int>)
    requires JoinsAt(cs, b, hi, loose)
    ensures b in cs && (cs[b].kind.Free? ==> b in loose) && !cs[b].kind.Top?
  {}

  lemma OnlyRest(cs: Chunks, b: int, hi: int, loose: set<int>, q: int)
    requires JoinsAt(cs, b, hi, loose)
    ensures LooseThen(loose, b, q, Kind.Free) == {q}
  {}

  lemma Remainder(cs: Chunks, t: int, nb: nat, b: int, hi: int, k: Kind)
    requires hi in cs && t + nb < hi
    ensures t + nb in PrependChunks(cs, t, nb, b, hi, k) && PrependChunks(cs, t, nb, b, hi, k)[t + nb].size == hi - t - nb
  {}

  lemma IntoDvReady(h: Heap, i: nat, h1: Heap, hi: int)
    requires i < |h.segs| && h.segs[i].base == h.dv && h.segs[i].base in h.cs && h.dvsize > 0 && hi == h.dv + h.dvsize
    requires h1 == h.(dv := 0, dvsize := 0) && HeapOk(h, {})
    ensures HeapOk(h1, {h.dv}) && FreeAt(h1, h.dv)
    ensures hi in h.cs && h.segs[i].base <= hi && hi + 8 in h.mem && WithoutPinuse(h.mem[hi + 8]) == h.mem[hi + 8]
    ensures h.cs[h.dv].kind.Free? && hi == h.dv + h.cs[h.dv].size
  {
    hide HeapOk;
    LoosenDv(h, {}, h1);
    assert {} + {h.dv} == {h.dv};
    PrependReady(h1, {h.dv}, i, hi);
    ClearAlready(h1, {h.dv}, h.dv, hi);
  }

  lemma NotFence(a: int, lo: int, hi: int)
    requires a < lo
    ensures a !in FenceWords(lo, hi)
  {}

  lemma IntoDvDone(h: Heap, h1: Heap, i: nat, t: int, size: nat, nb: nat, hi: int, h': Heap)
    requires i < |h.segs| && h.segs[i].base == h.dv && t + size == h.segs[i].base && t > 0 && t % 8 == 0 && size % 8 == 0
    requires nb % 8 == 0 && nb >= MIN_CHUNK_SIZE && nb + MIN_CHUNK_SIZE <= size
    requires h1 == h.(dv := 0, dvsize := 0) && h.dv in h.cs && h.cs[h.dv].kind.Free? && hi == h.dv + h.cs[h.dv].size
    requires hi in h.cs && hi > h.dv && hi + 8 in h.mem && WithoutPinuse(h.mem[hi + 8]) == h.mem[hi + 8]
    requires h' == h.(dv := t + nb, dvsize := hi - t - nb, segs := h.segs[i := Segment(t, size + h.segs[i].size)],
                      cs := PrependChunks(h.cs, t, nb, t + size, hi, Kind.Free),
                      mem := (h.mem + Region(t, size))[t + 8 := nb + 3][t + nb + 8 := hi - t - nb + 1][hi := hi - t - nb])
    requires Disjoint(h.mem, h.segs, t, size) && HeapOk(h1, {h.dv})
    ensures HeapOk(h', {}) && Kept(h, h', h.live.Keys)
    ensures t !in h.live && t in h'.cs && h'.cs[t] == Chunk(nb, Used, true)
  {
    hide HeapOk, Prepended, PrependChunks, Region, LooseThen, Disjoint, Kept;
    var q, h2 := t + nb, h'.(dv := 0, dvsize := 0);
    RegionAside(h, t, size, hi + 8);
    PrependedIs(h1, i, t, size, nb, hi, Kind.Free, h2);
    Prepend(h1, {t + size}, i, t, size, nb, hi, Kind.Free, h2);
    OnlyRest(h.cs, t + size, hi, {t + size}, q);
    Remainder(h.cs, t, nb, t + size, hi, Kind.Free);
    FreeFacts(h2, {q}, q);
    SetDv(h2, {q}, q, h');
    assert {q} - {q} == {};
    KeptAround(h, h1, h2, h', h.live.Keys);
  }

  lemma RegionAside(h: Heap, t: int, size: nat, a: int)
    requires Disjoint(h.mem, h.segs, t, size) && a in h.mem
    ensures a !in Region(t, size)
  {}

  lemma PrependedIs(h: Heap, i: nat, t: int, size: nat, nb: nat, hi: int, k: Kind, h': Heap)
    requires i < |h.segs| && t + size == h.segs[i].base && t > 0 && t % 8 == 0 && size % 8 == 0
    requires nb % 8 == 0 && nb >= MIN_CHUNK_SIZE && nb + MIN_CHUNK_SIZE <= size
    requires h.segs[i].base in h.cs && hi in h.cs && hi + 8 in h.mem && h.segs[i].base <= hi
    requires hi == if h.cs[h.segs[i].base].kind.Used? then h.segs[i].base else h.segs[i].base + h.cs[h.segs[i].base].size
    requires k == if h.cs[h.segs[i].base].kind.Top? then Top else Free
    requires h'.cs == PrependChunks(h.cs, t, nb, t + size, hi, k)
    requires h'.segs == h.segs[i := Segment(t, size + h.segs[i].size)]
    requires h'.live == h.live && h'.small == h.small && h'.large == h.large && h'.dv == h.dv && h'.dvsize == h.dvsize
    requires var m := (h.mem + Region(t, size))[t + 8 := nb + 3];
      if k.Top? then
         h'.top == t + nb && h'.topsize == hi - t - nb && h'.mem == m[t + nb + 8 := hi - t - nb + 1]
       else
         h'.top == h.top && h'.topsize == h.topsize
         && h'.mem == m[hi + 8 := WithoutPinuse(h.mem[hi + 8])][t + nb + 8 := hi - t - nb + 1][hi := hi - t - nb]
    ensures Prepended(h, i, t, size, nb, hi, k, h')
  {}

  lemma KeptThen(h: Heap, h1: Heap, h2: Heap, blocks: set<int>)
    requires Kept(h, h1, blocks) && Kept(h1, h2, blocks)
    ensures Kept(h, h2, blocks)
  {
    KeptTrans(h, h1, h2, blocks);
  }

  lemma AppendedIs(h: Heap, t: int, size: nat, h': Heap)
    requires AtEnd(h, t) && h.segs != [] && t == SegEnd(h.segs[0]) && size > TOP_FOOT_SIZE && size % 8 == 0
    requires t + size < ADDRESS_LIMIT
    requires h' == h.(mem := (h.mem + Region(t, size))[h.top + 8 := h.topsize + size + 1][h.top + h.topsize + size + 8 := TOP_FOOT_SIZE],
                      cs := AppendChunks(h.cs, h.top, t, t + size), topsize := h.topsize + size,
                      segs := h.segs[0 := h.segs[0].(size := h.segs[0].size + size)])
    ensures Appended(h, t, size, h')
  {}

  lemma BinnedIs(h: Heap, loose: set<int>, p: int)
    requires FreeAt(h, p) && p !in loose && (h.dvsize > 0 ==> p != h.dv) && HeapOk(h, loose)
    ensures p in h.small || p in h.large
    ensures p in h.small <==> h.cs[p].size < MIN_LARGE_SIZE
    ensures p in h.large <==> h.cs[p].size >= MIN_LARGE_SIZE
  {
    hide CoreOk, TopOk, SegsOk, LiveOk;
  }

  /** Size and address of a free chunk. */
  lemma FreeNumbers(h: Heap, loose: set<int>, p: int)
    requires FreeAt(h, p) && HeapOk(h, loose)
    ensures p > 0 && p % 8 == 0 && h.cs[p].size % 8 == 0 && MIN_CHUNK_SIZE <= h.cs[p].size < ADDRESS_LIMIT
  {
    assert ChunkOk(h.mem, h.cs, p);
    assert InSomeSegment(h, p);
    var i :| 0 <= i < |h.segs| && Inside(h.cs, h.segs[i], p);
    assert SegOk(h, h.segs[i]);
  }

  // ---- Freeing ----------------------------------------------------------------------------------------

  /** Without the designated victim, if that is q. */
  ghost function NoDv(h: Heap, q: int): Heap {
    if h.dv == q then h.(dv := 0, dvsize := 0) else h
  }

  /** The chunks from q to before next may become one free chunk. */
  ghost predicate Freeable(h: Heap, loose: set<int>, q: int, next: int) {
    && q in h.cs && next in h.cs && q > 0 && h.cs[q].pinuse && (h.cs[q].kind.Used? || h.cs[q].kind.Free?) && q < next
    && next - q >= MIN_CHUNK_SIZE && !h.cs[next].kind.Tail? && !h.cs[next].kind.End? && next + 8 in h.mem
    && (forall p <- loose :: q <= p < next)
    && (h.dv == q ==> h.dvsize > 0)
    && Gap(h, loose + (if h.dv == q then {q} else {}), q, next)
  }

  lemma NoNull(h: Heap)
    requires HeapOk(h, {})
    ensures 0 !in h.live && 0 !in h.cs && h.live - {0} == h.live
  {
    hide *;
    HeapParts(h, {});
    NoNullChunk(h.mem, h.cs);
    LiveThere(h);
  }

  lemma NoNullChunk(mem: Memory, cs: Chunks)
    requires CoreOk(mem, cs)
    ensures 0 !in cs
  {
    forall p <- cs ensures p > 0 {
      assert ChunkOk(mem, cs, p);
    }
  }

  lemma LiveThere(h: Heap)
    requires LiveOk(h)
    ensures forall p <- h.live :: p in h.cs && h.cs[p].kind.Used?
  {}

  lemma KeptSelf(h: Heap, blocks: set<int>)
    requires blocks <= h.live.Keys && HeapOk(h, {})
    ensures Kept(h, h, blocks)
  {
    hide HeapOk;
    HeapParts(h, {});
    LiveThere(h);
  }

  /** The program gives up the block at p. */
  lemma Unhand(h: Heap, p: int)
    requires p in h.live && HeapOk(h, {})
    ensures HeapOk(h.(live := h.live - {p}), {}) && p in h.cs && h.cs[p].kind.Used?
  {
    hide *;
    HeapParts(h, {});
    LiveThere(h);
    var h' := h.(live := h.live - {p});
    LiveLess(h, h', p);
    SameButLive(h, h');
    HeapWhole(h', {});
  }

  lemma LiveLess(h: Heap, h': Heap, p: int)
    requires LiveOk(h) && h' == h.(live := h.live - {p})
    ensures LiveOk(h') && SameChunks(h, h'.(live := h.live))
  {}

  lemma SameButLive(h: Heap, h': Heap)
    requires h' == h.(live := h'.live) && BinsOk(h, {}) && TopOk(h) && CoreOk(h.mem, h.cs) && SegsOk(h)
    ensures BinsOk(h', {}) && TopOk(h') && SegsOk(h') && CoreOk(h'.mem, h'.cs)
  {
    hide SegsOk, CoreOk;
    SameSegs(h, h');
  }

  /** The program gets the block at p. */
  lemma Hand(h: Heap, p: int, nsize: nat)
    requires p in h.cs && h.cs[p].kind.Used? && nsize + 8 <= h.cs[p].size && HeapOk(h, {})
    ensures HeapOk(h.(live := h.live[p := nsize]), {})
  {
    hide *;
    HeapParts(h, {});
    var h' := h.(live := h.live[p := nsize]);
    LiveMore(h, h', p, nsize);
    SameButLive(h, h');
    HeapWhole(h', {});
  }

  lemma LiveMore(h: Heap, h': Heap, p: int, nsize: nat)
    requires LiveOk(h) && h' == h.(live := h.live[p := nsize]) && p in h.cs && h.cs[p].kind.Used? && nsize + 8 <= h.cs[p].size
    ensures LiveOk(h')
  {}

  /** A clear PINUSE_BIT leads to the free chunk in front. */
  lemma Backward(h: Heap, p: int, next: int)
    requires p in h.cs && h.cs[p].kind.Used? && !h.cs[p].pinuse && HeapOk(h, {})
    ensures p in h.mem && var q := p - h.mem[p]; FreeAt(h, q) && q in h.cs && h.cs[q].size == h.mem[p] && 0 < q < p && h.mem[p] > 0
  {
    hide *;
    HeapParts(h, {});
    BackThere(h.mem, h.cs, p);
    FreeNumbers(h, {}, p - h.mem[p]);
  }

  lemma BackThere(mem: Memory, cs: Chunks, p: int)
    requires p in cs && cs[p].kind.Used? && !cs[p].pinuse && CoreOk(mem, cs)
    ensures p in mem && p - mem[p] in cs && cs[p - mem[p]].kind.Free? && cs[p - mem[p]].size == mem[p]
    ensures forall h: Heap | h.cs == cs :: FreeAt(h, p - mem[p])
  {
    assert ChunkOk(mem, cs, p);
  }

  lemma HeadBitsBoth(c: Chunk, w: int)
    requires w == Head(c) && c.pinuse && SizeOk(c)
    ensures w % 4 == 3 <==> InUse(c.kind)
  {}

  lemma FreeableIs(h: Heap, loose: set<int>, q: int, next: int)
    requires q in h.cs && next in h.cs && q > 0 && h.cs[q].pinuse && (h.cs[q].kind.Used? || h.cs[q].kind.Free?) && q < next
    requires next - q >= MIN_CHUNK_SIZE && !h.cs[next].kind.Tail? && !h.cs[next].kind.End? && next + 8 in h.mem
    requires (forall p <- loose :: q <= p < next) && (h.dv == q ==> h.dvsize > 0)
    requires Gap(h, loose + (if h.dv == q then {q} else {}), q, next)
    ensures Freeable(h, loose, q, next)
  {}

  lemma FreeableParts(h: Heap, loose: set<int>, q: int, next: int)
    requires Freeable(h, loose, q, next)
    ensures q in h.cs && next in h.cs && q > 0 && h.cs[q].pinuse && (h.cs[q].kind.Used? || h.cs[q].kind.Free?) && q < next
    ensures next - q >= MIN_CHUNK_SIZE && !h.cs[next].kind.Tail? && !h.cs[next].kind.End? && next + 8 in h.mem
    ensures (forall p <- loose :: q <= p < next) && (h.dv == q ==> h.dvsize > 0)
    ensures Gap(h, loose + (if h.dv == q then {q} else {}), q, next)
  {}

  /** Nothing in front to join with. */
  lemma FreeableAlone(h: Heap, p: int, next: int)
    requires p in h.cs && h.cs[p].kind.Used? && h.cs[p].pinuse && next == p + h.cs[p].size && p !in h.live
    requires (h.dvsize == 0 ==> h.dv == 0) && HeapOk(h, {})
    ensures Freeable(h, {}, p, next)
  {
    hide *;
    GapUsed(h, {}, p, next);
    UsedSize(h, p);
    DvElsewhere(h, p);
    var none: set<int> := {};
    assert none + {} == {};
    FreeableIs(h, {}, p, next);
  }

  lemma UsedSize(h: Heap, p: int)
    requires p in h.cs && h.cs[p].kind.Used? && HeapOk(h, {})
    ensures h.cs[p].size >= MIN_CHUNK_SIZE && h.cs[p].size > 0
  {
    assert ChunkOk(h.mem, h.cs, p);
  }

  lemma DvElsewhere(h: Heap, p: int)
    requires p in h.cs && h.cs[p].kind.Used? && p > 0 && (h.dvsize == 0 ==> h.dv == 0) && HeapOk(h, {})
    ensures p != h.dv
  {}

  /** The free chunk q in front of p is unlinked. */
  lemma GapBack(h1: Heap, q: int, p: int, next: int)
    requires p in h1.cs && h1.cs[p].kind.Used? && p !in h1.live && q in h1.cs && p == q + h1.cs[q].size
    requires next == p + h1.cs[p].size && q != h1.dv && HeapOk(h1, {q})
    ensures Freeable(h1, {q}, q, next)
  {
    hide *;
    GapUsed(h1, {q}, p, next);
    FreeFacts(h1, {q}, q);
    GapFree(h1, {q}, q, p);
    RangeOrder(h1, {q}, q, p);
    RangeOrder(h1, {q}, p, next);
    GapsMeet(h1, {q}, q, p, next);
    assert {q} + {} == {q};
    FreeableIs(h1, {q}, q, next);
  }

  lemma RangeOrder(h: Heap, loose: set<int>, lo: int, hi: int)
    requires Gap(h, loose, lo, hi)
    ensures lo < hi && lo in h.cs && hi in h.cs
  {}

  /** The free chunk q in front of p is the designated victim. */
  lemma GapDv(h: Heap, q: int, p: int, next: int)
    requires p in h.cs && h.cs[p].kind.Used? && p !in h.live && q in h.cs && p == q + h.cs[q].size
    requires next == p + h.cs[p].size && q == h.dv && h.dvsize > 0 && HeapOk(h, {})
    ensures Freeable(h, {}, q, next)
  {
    hide *;
    var h1 := NoDv(h, q);
    NoDvOk(h, {}, q);
    NoDvSame(h, q);
    assert {} + {q} == {q};
    GapUsed(h, {}, p, next);
    GapMore(h, h, {}, {q}, p, next);
    GapFree(h1, {q}, q, p);
    GapMore(h1, h, {q}, {}, q, p);
    assert {q} + {} == {q};
    RangeOrder(h, {q}, q, p);
    RangeOrder(h, {q}, p, next);
    GapsMeet(h, {q}, q, p, next);
    FreeableIs(h, {}, q, next);
  }

  lemma NoDvSame(h: Heap, q: int)
    ensures NoDv(h, q) == h.(dv := NoDv(h, q).dv, dvsize := NoDv(h, q).dvsize)
    ensures h.dv != q ==> NoDv(h, q) == h
  {}

  lemma NoDvOk(h: Heap, loose: set<int>, q: int)
    requires (h.dv == q ==> h.dvsize > 0) && HeapOk(h, loose)
    ensures HeapOk(NoDv(h, q), loose + (if h.dv == q then {q} else {}))
  {
    hide HeapOk;
    if h.dv == q {
      LoosenDv(h, loose, NoDv(h, q));
    } else {
      assert loose + {} == loose;
    }
  }

  /** The chunk at q and its free neighbour at next, loose now. */
  lemma NextGap(h: Heap, hd: Heap, loose: set<int>, looser: set<int>, q: int, next: int, hi: int)
    requires hd == h.(dv := hd.dv, dvsize := hd.dvsize, small := hd.small, large := hd.large)
    requires next in h.cs && hi == next + h.cs[next].size && loose <= looser && next in looser
    requires forall p <- looser :: q <= p <= next
    requires Gap(h, loose, q, next) && HeapOk(hd, looser)
    ensures Gap(hd, looser, q, hi) && hi in h.cs && InUse(h.cs[hi].kind) && hi + 8 in h.mem && next < hi
    ensures WithoutPinuse(h.mem[hi + 8]) == h.mem[hi + 8]
    ensures forall p <- looser :: q <= p < hi
  {
    hide *;
    assert looser == loose + (looser - loose);
    GapMore(h, hd, loose, looser - loose, q, next);
    GapFree(hd, looser, next, hi);
    RangeOrder(hd, looser, next, hi);
    GapsMeet(hd, looser, q, next, hi);
    FreeFacts(hd, looser, next);
    ClearAlready(hd, looser, next, hi);
  }

  /** Freed, nothing behind: the chunk at q is free and loose. */
  lemma FreedAlone(h: Heap, loose: set<int>, q: int, next: int, h': Heap)
    requires Freeable(h, loose, q, next) && q != h.dv && next in h.cs && InUse(h.cs[next].kind) && next + 8 in h.mem
    requires h' == h.(mem := h.mem[next + 8 := WithoutPinuse(h.mem[next + 8])][q + 8 := next - q + 1][next := next - q],
                      cs := Put1(h.cs, q, next, Kind.Free))
    requires HeapOk(h, loose)
    ensures HeapOk(h', {q}) && Kept(h, h', h.live.Keys) && q in h'.cs && h'.cs[q].size == next - q
  {
    hide *;
    FreeableParts(h, loose, q, next);
    assert loose + {} == loose;
    FreeGap(h, loose, q, next, h');
  }

  lemma FreedTop(h: Heap, loose: set<int>, q: int, next: int, hi: int, h': Heap)
    requires Freeable(h, loose, q, next) && next == h.top && hi == h.top + h.topsize && hi in h.cs && q in h.cs
    requires var n := NoDv(h, q);
      h' == n.(mem := h.mem[q + 8 := hi - q + 1], cs := Put1(h.cs, q, hi, Kind.Top), top := q, topsize := hi - q)
    requires HeapOk(h, loose)
    ensures HeapOk(h', {}) && Kept(h, h', h.live.Keys)
  {
    hide *;
    FreeableParts(h, loose, q, next);
    var n, l := NoDv(h, q), loose + (if h.dv == q then {q} else {});
    NoDvOk(h, loose, q);
    NoDvSame(h, q);
    GapMore(h, n, l, {}, q, next);
    assert l + {} == l;
    TopGap(n, l, q, hi, h');
    KeptAround(h, n, h', h', h.live.Keys);
  }

  lemma FreedIntoDv(h: Heap, loose: set<int>, q: int, next: int, hi: int, h': Heap)
    requires Freeable(h, loose, q, next) && next == h.dv && h.dvsize > 0 && hi == h.dv + h.dvsize && next in h.cs && q in h.cs && hi in h.cs
    requires h' == h.(mem := h.mem[q + 8 := hi - q + 1][hi := hi - q], cs := Put1(h.cs, q, hi, Kind.Free),
                      dv := q, dvsize := hi - q)
    requires HeapOk(h, loose)
    ensures HeapOk(h', {}) && Kept(h, h', h.live.Keys)
  {
    hide *;
    FreeableParts(h, loose, q, next);
    var n := NoDv(h, next);
    NoDvOk(h, loose, next);
    NoDvSame(h, next);
    DvIs(h, loose);
    assert loose + {} == loose;
    NextGap(h, n, loose, loose + {next}, q, next, hi);
    var h2 := h'.(dv := n.dv, dvsize := n.dvsize);
    NoDvFields(h, next);
    FreeGap(n, loose + {next}, q, hi, h2);
    FreeFacts(h2, {q}, q);
    SetDv(h2, {q}, q, h');
    assert {q} - {q} == {};
    KeptAround(h, n, h2, h', h.live.Keys);
  }

  lemma DvIs(h: Heap, loose: set<int>)
    requires h.dvsize > 0 && HeapOk(h, loose)
    ensures FreeAt(h, h.dv) && h.dv in h.cs && h.cs[h.dv].size == h.dvsize
  {}

  lemma NoDvFields(h: Heap, q: int)
    requires h.dv == q
    ensures NoDv(h, q).dvsize == 0
  {}

  lemma FreeNext(h: Heap, loose: set<int>, q: int, next: int)
    requires Freeable(h, loose, q, next) && next in h.cs && !InUse(h.cs[next].kind) && next != h.top
    requires HeapOk(h, loose)
    ensures FreeAt(h, next) && next !in loose
    ensures forall h': Heap | h' == h.(small := h'.small, large := h'.large) :: Freeable(h', loose, q, next)
  {
    hide *;
    HeapParts(h, loose);
    OnlyTop(h, next);
    FreeableParts(h, loose, q, next);
    NextKind(h, loose, next);
    var l := loose + (if h.dv == q then {q} else {});
    assert l + {} == l;
    forall h': Heap | h' == h.(small := h'.small, large := h'.large) ensures Freeable(h', loose, q, next) {
      GapMore(h, h', l, {}, q, next);
      FreeableIs(h', loose, q, next);
    }
  }

  lemma NextKind(h: Heap, loose: set<int>, next: int)
    requires next in h.cs && !InUse(h.cs[next].kind) && !h.cs[next].kind.Top? && !h.cs[next].kind.Tail? && !h.cs[next].kind.End?
    requires forall p <- loose :: p < next
    ensures FreeAt(h, next) && next !in loose
  {}

  lemma OnlyTop(h: Heap, p: int)
    requires p in h.cs && p != h.top && TopOk(h)
    ensures !h.cs[p].kind.Top?
  {}

  lemma FreedBoth(h: Heap, loose: set<int>, q: int, next: int, hi: int, h': Heap)
    requires Freeable(h, loose, q, next) && next in h.cs && hi == next + h.cs[next].size && q in h.cs && hi in h.cs && q != h.dv
    requires h' == h.(mem := h.mem[q + 8 := hi - q + 1][hi := hi - q], cs := Put1(h.cs, q, hi, Kind.Free))
    requires HeapOk(h, loose + {next})
    ensures HeapOk(h', {q}) && Kept(h, h', h.live.Keys) && q in h'.cs && h'.cs[q].size == hi - q
  {
    hide *;
    FreeableParts(h, loose, q, next);
    assert loose + {} == loose;
    NextGap(h, h, loose, loose + {next}, q, next, hi);
    FreeGap(h, loose + {next}, q, hi, h');
  }

  lemma FreedBothDv(h: Heap, loose: set<int>, q: int, next: int, hi: int, h': Heap)
    requires Freeable(h, loose, q, next) && next in h.cs && hi == next + h.cs[next].size && q in h.cs && hi in h.cs && q == h.dv
    requires h' == h.(mem := h.mem[q + 8 := hi - q + 1][hi := hi - q], cs := Put1(h.cs, q, hi, Kind.Free), dvsize := hi - q)
    requires HeapOk(h, loose + {next})
    ensures HeapOk(h', {}) && Kept(h, h', h.live.Keys)
  {
    hide *;
    FreeableParts(h, loose, q, next);
    var n, l := NoDv(h, q), loose + {q};
    NoDvOk(h, loose + {next}, q);
    NoDvSame(h, q);
    NoDvFields(h, q);
    assert loose + {next} + {q} == l + {next};
    NextGap(h, n, l, l + {next}, q, next, hi);
    var h2 := h'.(dv := n.dv, dvsize := n.dvsize);
    FreeGap(n, l + {next}, q, hi, h2);
    FreeFacts(h2, {q}, q);
    SetDv(h2, {q}, q, h');
    assert {q} - {q} == {};
    KeptAround(h, n, h2, h', h.live.Keys);
  }

  /** The designated victim takes the freed chunk behind it. */
  lemma WidenDv(h: Heap, q: int, next: int, h': Heap)
    requires Freeable(h, {}, q, next) && next in h.cs && InUse(h.cs[next].kind) && q == h.dv && next + 8 in h.mem
    requires h' == h.(mem := h.mem[next + 8 := WithoutPinuse(h.mem[next + 8])][q + 8 := next - q + 1][next := next - q],
                      cs := Put1(h.cs, q, next, Kind.Free), dvsize := next - q)
    requires HeapOk(h, {})
    ensures HeapOk(h', {}) && Kept(h, h', h.live.Keys)
  {
    hide *;
    FreeableParts(h, {}, q, next);
    var n := NoDv(h, q);
    NoDvOk(h, {}, q);
    NoDvSame(h, q);
    NoDvFields(h, q);
    assert {} + {q} == {q};
    GapMore(h, n, {q}, {}, q, next);
    assert {q} + {} == {q};
    var h2 := h'.(dv := n.dv, dvsize := n.dvsize);
    FreeGap(n, {q}, q, next, h2);
    FreeFacts(h2, {q}, q);
    SetDv(h2, {q}, q, h');
    assert {q} - {q} == {};
    KeptAround(h, n, h2, h', h.live.Keys);
  }

  // ---- Requests ---------------------------------------------------------------------------------------

  const MAX_REQUEST: nat := SIZE_T_RANGE - 128
  const MIN_REQUEST: nat := 23
  const MAX_SMALL_REQUEST: nat := 240

  function PadRequest(n: nat): nat {
    (n + 15) / 8 * 8
  }

  /** request2size, or MAX_SIZE_T for what is too big to allocate. */
  function ChunkSizeFor(nsize: nat): nat {
    if nsize >= MAX_REQUEST then SIZE_T_RANGE - 1
    else if nsize < MIN_REQUEST then MIN_CHUNK_SIZE
    else PadRequest(nsize)
  }

  lemma RequestSizes(nsize: nat)
    requires nsize < SIZE_T_RANGE
    ensures var nb := ChunkSizeFor(nsize);
      && MIN_CHUNK_SIZE <= nb < SIZE_T_RANGE && (nsize <= MAX_SMALL_REQUEST <==> nb < MIN_LARGE_SIZE)
      && (nsize < MAX_REQUEST ==> nb % 8 == 0 && nsize + 8 <= nb < SIZE_T_RANGE - 100)
  {
    assert PadRequest(nsize) == 8 * ((nsize + 15) / 8);
  }

  /** The smallest chunk size for a request, with eight bytes more than asked for. */
  lemma RequestTight(nsize: nat)
    requires nsize < MAX_REQUEST
    ensures var nb := ChunkSizeFor(nsize);
      nb % 8 == 0 && nb >= nsize + 8 && nb >= MIN_CHUNK_SIZE && (nb - 8 < nsize + 8 || nb == MIN_CHUNK_SIZE)
  {
    assert PadRequest(nsize) == 8 * ((nsize + 15) / 8);
  }

  /** The size to ask the system for is the least multiple of the granularity with room for the chunk, the foot
      of top and a byte more; and it wraps around exactly if that is beyond the range of size_t. */
  lemma MmapTight(nb: nat)
    requires nb < SIZE_T_RANGE
    ensures MmapSize(nb) <= nb <==> nb + TOP_FOOT_SIZE + DEFAULT_GRANULARITY >= SIZE_T_RANGE
    ensures MmapSize(nb) % DEFAULT_GRANULARITY == 0
    ensures MmapSize(nb) > nb ==> nb + TOP_FOOT_SIZE < MmapSize(nb) <= nb + TOP_FOOT_SIZE + DEFAULT_GRANULARITY
  {
    var req := (nb + TOP_FOOT_SIZE + 1) % SIZE_T_RANGE;
    var up := (req + DEFAULT_GRANULARITY - 1) % SIZE_T_RANGE;
    Granules(up);
    var k := up / 131072;
    assert MmapSize(nb) == DEFAULT_GRANULARITY * k;
  }

  /** The size to ask the system for wraps around for what is too big to allocate. */
  lemma HugeFails(nsize: nat)
    ensures nsize >= MAX_REQUEST ==> MmapSize(ChunkSizeFor(nsize)) <= ChunkSizeFor(nsize)
  {}

  /** No free chunk, and not top either, has room for nb bytes. */
  ghost predicate NothingFits(h: Heap, nb: nat) {
    NoneBinned(h, nb) && h.dvsize < nb && h.topsize <= nb
  }

  lemma Bounds(h: Heap)
    requires HeapOk(h, {})
    ensures h.dvsize < ADDRESS_LIMIT && h.topsize < ADDRESS_LIMIT
    ensures forall p <- h.small :: h.small[p] < MIN_LARGE_SIZE
    ensures forall p <- h.large :: h.large[p] < ADDRESS_LIMIT
  {
    forall p <- h.large ensures h.large[p] < ADDRESS_LIMIT { InBins(h, {}, p); FreeNumbers(h, {}, p); }
    if h.dvsize > 0 { FreeNumbers(h, {}, h.dv); }
    HeapParts(h, {});
    SegsParts(h);
    assert SegOk(h, h.segs[0]);
    hide *;
  }

  // ---- Storing into blocks ------------------------------------------------------------------------------

  /** A word of the payload may hold anything. */
  lemma PayloadStore(h: Heap, p: int, a: int, v: int)
    requires p in h.live && p in h.cs && InPayload(h, p, a) && HeapOk(h, {})
    ensures a in h.mem && HeapOk(h.(mem := h.mem[a := v]), {}) && Kept(h, h.(mem := h.mem[a := v]), h.live.Keys - {p})
  {
    hide *;
    HeapParts(h, {});
    LiveThere(h);
    var h' := h.(mem := h.mem[a := v]);
    PayloadCore(h, p, a, v);
    PayloadKept(h, h', p, a, v);
    PayloadSegs(h, h', a, v);
    PayloadRest(h, h');
    HeapWhole(h', {});
  }

  lemma PayloadKept(h: Heap, h': Heap, p: int, a: int, v: int)
    requires p in h.live && p in h.cs && InPayload(h, p, a) && h' == h.(mem := h.mem[a := v])
    requires LiveOk(h) && CoreOk(h.mem, h.cs)
    ensures Kept(h, h', h.live.Keys - {p})
  {
    forall q <- h.live.Keys - {p}
      ensures q in h.cs && !InPayload(h, q, a)
    {
      if q < p { assert q + h.cs[q].size <= p; } else { assert p + h.cs[p].size <= q; }
    }
    hide CoreOk;
  }

  lemma PayloadCore(h: Heap, p: int, a: int, v: int)
    requires p in h.cs && h.cs[p].kind.Used? && InPayload(h, p, a) && CoreOk(h.mem, h.cs)
    ensures a in h.mem && CoreOk(h.mem[a := v], h.cs)
  {
    assert ChunkOk(h.mem, h.cs, p);
    assert Mapped(h.mem, p, h.cs[p].size);
    forall q <- h.cs ensures ChunkOk(h.mem[a := v], h.cs, q) {
      PayloadChunk(h.mem, h.cs, p, a, v, q);
    }
  }

  lemma PayloadChunk(mem: Memory, cs: Chunks, p: int, a: int, v: int, q: int)
    requires p in cs && cs[p].kind.Used? && p + 16 <= a < p + cs[p].size + 8 && a in mem && q in cs
    requires Apart(cs) && ChunkOk(mem, cs, p) && ChunkOk(mem, cs, q)
    ensures ChunkOk(mem[a := v], cs, q)
  {
    var n := p + cs[p].size;
    if q < p { assert q + cs[q].size <= p; }
    if q > p { assert n <= q; }
    if q > n { assert n + cs[n].size <= q; }
    assert Mapped(mem, q, cs[q].size) ==> Mapped(mem[a := v], q, cs[q].size);
    hide Apart, Mapped;
  }

  lemma PayloadSegs(h: Heap, h': Heap, a: int, v: int)
    requires h' == h.(mem := h.mem[a := v]) && SegsOk(h)
    ensures SegsOk(h')
  {
    hide SegOk, InSomeSegment;
    forall p | p in h'.cs ensures InSomeSegment(h', p) { assert InSomeSegment(h, p); InsideSame(h, h', p); }
    forall i | 0 <= i < |h.segs| ensures SegOk(h', h.segs[i]) { PayloadSeg(h, h', h.segs[i], a, v); }
  }

  lemma InsideSame(h: Heap, h': Heap, p: int)
    requires p in h.cs && h'.cs == h.cs && h'.segs == h.segs && InSomeSegment(h, p)
    ensures InSomeSegment(h', p)
  {}

  lemma PayloadSeg(h: Heap, h': Heap, s: Segment, a: int, v: int)
    requires h' == h.(mem := h.mem[a := v]) && SegOk(h, s)
    ensures SegOk(h', s)
  {}

  lemma PayloadRest(h: Heap, h': Heap)
    requires h' == h.(mem := h'.mem) && BinsOk(h, {}) && TopOk(h) && LiveOk(h)
    ensures BinsOk(h', {}) && TopOk(h') && LiveOk(h')
  {}

  // ---- Resizing in place ---------------------------------------------------------------------------------

  /** The first bytes of the old block, as many as both hold, are at r now. */
  ghost predicate PrefixMoved(h: Heap, h': Heap, p: int, r: int, nsize: nat) {
    p in h.cs && Copied(h.mem, p + 16, h'.mem, r + 16, Least(h.cs[p].size - 8, nsize))
  }

  function Least(a: int, b: int): int {
    if a < b then a else b
  }

  ghost predicate CopiedAt(mem: Memory, from: int, mem': Memory, to: int, k: int) {
    from + k in mem && to + k in mem' && mem'[to + k] == mem[from + k]
  }

  ghost predicate Copied(mem: Memory, from: int, mem': Memory, to: int, n: int) {
    forall k | 0 <= k < n :: CopiedAt(mem, from, mem', to, k)
  }

  lemma CarvedPositive(h: Heap, h': Heap, p: int, nb: nat)
    requires Carved(h, h', p, nb)
    ensures p != 0
  {}

  lemma LiveIs(h: Heap, p: int)
    requires p in h.live && HeapOk(h, {})
    ensures p > 0 && p % 8 == 0 && p in h.cs && h.cs[p].kind.Used? && h.live[p] + 8 <= h.cs[p].size
  {
    hide SegsOk, BinsOk, TopOk;
    assert ChunkOk(h.mem, h.cs, p);
  }

  /** Words around the cut of a chunk in use, or at its end. */
  lemma UsedBehind(h: Heap, p: int, mid: int, n: int)
    requires p in h.cs && h.cs[p].kind.Used? && n == p + h.cs[p].size && p <= mid <= n && HeapOk(h, {})
    ensures n in h.cs && n + 8 in h.mem && p + 8 in h.mem && h.cs[n].pinuse && p < n
    ensures mid < n ==> mid + 8 in h.mem
    ensures h.mem[p + 8] % 2 == (if h.cs[p].pinuse then 1 else 0) && WithPinuse(h.mem[n + 8]) == h.mem[n + 8]
    ensures h.cs[p].size % 8 == 0 && h.cs[p].size >= MIN_CHUNK_SIZE
  {
    hide *;
    HeapParts(h, {});
    UsedKind(h, p);
    ChunkRange(h.mem, h.cs, p, n);
    AfterUsed(h.mem, h.cs, p, n);
    UsedWords(h.mem, h.cs, p, mid, n);
  }

  lemma UsedWords(mem: Memory, cs: Chunks, p: int, mid: int, n: int)
    requires p in cs && n in cs && p < n && p <= mid <= n && cs[p].kind.Used? && SizeOk(cs[p]) && SizeOk(cs[n])
    requires HeadAt(mem, p, cs[p]) && HeadAt(mem, n, cs[n]) && Mapped(mem, p, n - p) && cs[n].pinuse && !cs[n].kind.Tail?
    ensures p + 8 in mem && n + 8 in mem && (mid < n ==> mid + 8 in mem)
    ensures mem[p + 8] % 2 == (if cs[p].pinuse then 1 else 0) && WithPinuse(mem[n + 8]) == mem[n + 8]
    ensures cs[p].size % 8 == 0 && cs[p].size >= MIN_CHUNK_SIZE
  {}

  /** set_inuse keeps the PINUSE_BIT of the chunk and sets that of the next. */
  function InuseWords(mem: Memory, p: int, s: nat): Memory
    requires p + 8 in mem && p + s + 8 in mem
  {
    var m := mem[p + 8 := mem[p + 8] % 2 + s + 2];
    m[p + s + 8 := WithPinuse(m[p + s + 8])]
  }

  lemma CutIs(h: Heap, p: int, mid: int, n: int, mem: Memory)
    requires p in h.cs && p < mid < n && p + 8 in h.mem && mid + 8 in h.mem && n + 8 in h.mem
    requires p % 8 == 0 && mid % 8 == 0 && n % 8 == 0
    requires h.mem[p + 8] % 2 == (if h.cs[p].pinuse then 1 else 0) && WithPinuse(h.mem[n + 8]) == h.mem[n + 8]
    requires mem == InuseWords(InuseWords(h.mem, p, mid - p), mid, n - mid)
    ensures mem == h.mem[p + 8 := mid - p + 2 + (if h.cs[p].pinuse then 1 else 0)][mid + 8 := n - mid + 3]
  {}

  lemma ExtendIs(h: Heap, p: int, mid: int, n: int, mem: Memory)
    requires p in h.cs && p < mid < n && p + 8 in h.mem && mid + 8 in h.mem
    requires h.mem[p + 8] % 2 == (if h.cs[p].pinuse then 1 else 0)
    requires mem == InuseWords(h.mem, p, mid - p)[mid + 8 := n - mid + 1]
    ensures mem == h.mem[p + 8 := mid - p + 2 + (if h.cs[p].pinuse then 1 else 0)][mid + 8 := n - mid + 1]
  {}

  lemma InTop(h: Heap, n: int, mid: int)
    requires n == h.top + h.topsize && h.top < mid < n && HeapOk(h, {})
    ensures mid + 8 in h.mem
  {
    hide *;
    HeapParts(h, {});
    TopFacts(h, n);
    TopKind(h);
    TopNumbers(h, {}, n);
    ChunkRange(h.mem, h.cs, h.top, n);
    MidMapped(h.mem, h.top, mid, n);
  }

  lemma MidMapped(mem: Memory, p: int, mid: int, n: int)
    requires p < mid < n && Mapped(mem, p, n - p)
    ensures mid + 8 in mem
  {}

  lemma PrefixInPlace(h: Heap, h': Heap, p: int, end: int, nsize: nat)
    requires p in h.live && p in h.cs && p + h.cs[p].size + 8 <= end && PrefixKept(h, h', p, end) && HeapOk(h, {})
    ensures PrefixMoved(h, h', p, p, nsize)
  {
    hide HeapOk;
    PayloadThere(h, p);
    PrefixCopied(h, h', p, end, nsize);
  }

  /** A block in front of top, with enough of it. */
  lemma ExtendReady(h: Heap, p: int, nb: nat)
    requires p in h.live && p in h.cs && p + h.cs[p].size == h.top && h.cs[p].size < nb < h.cs[p].size + h.topsize
    requires HeapOk(h, {})
    ensures p + 8 in h.mem && p + nb + 8 in h.mem && Chunksize(h.mem[p + 8]) == h.cs[p].size
    ensures h.top + h.topsize in h.cs && h.cs[p].kind.Used? && p % 8 == 0 && h.mem[p + 8] % 2 == (if h.cs[p].pinuse then 1 else 0)
  {
    hide HeapOk;
    LiveIs(h, p);
    HeadRead(h, {}, p);
    TopNumbers(h, {}, h.top + h.topsize);
    UsedBehind(h, p, h.top, h.top);
    InTop(h, h.top + h.topsize, p + nb);
  }

  /** Its new end is the new start of top. */
  lemma ExtendDone(h: Heap, p: int, nb: nat, nsize: nat, h': Heap)
    requires p in h.live && p in h.cs && p + h.cs[p].size == h.top && h.cs[p].size < nb < h.cs[p].size + h.topsize
    requires nb >= nsize + 8 && nb % 8 == 0 && p + 8 in h.mem && p + nb + 8 in h.mem && h.top + h.topsize in h.cs
    requires h' == h.(mem := InuseWords(h.mem, p, nb)[p + nb + 8 := h.top + h.topsize - (p + nb) + 1], top := p + nb,
                      topsize := h.top + h.topsize - (p + nb), live := h.live[p := nsize],
                      cs := Put2(h.cs, p, p + nb, h.top + h.topsize, Used, Top))
    requires HeapOk(h, {})
    ensures HeapOk(h', {}) && Kept(h, h', h.live.Keys - {p}) && PrefixMoved(h, h', p, p, nsize)
  {
    hide HeapOk, Kept, PrefixMoved, PrefixKept, Put2, InuseWords;
    ExtendReady(h, p, nb);
    var n := h.top + h.topsize;
    ExtendIs(h, p, p + nb, n, h'.mem);
    GrowIntoTop(h, {}, p, p + nb, n, nsize, h');
    PrefixInPlace(h, h', p, h.top + 8, nsize);
  }

  lemma PrefixCopied(h: Heap, h': Heap, p: int, end: int, nsize: nat)
    requires p in h.cs && p + h.cs[p].size + 8 <= end && PrefixKept(h, h', p, end)
    requires forall a | p + 16 <= a < p + h.cs[p].size + 8 :: a in h.mem
    ensures PrefixMoved(h, h', p, p, nsize)
  {
    var from := p + 16;
    forall k | 0 <= k < Least(h.cs[p].size - 8, nsize) ensures CopiedAt(h.mem, from, h'.mem, from, k) {
      assert from + k in h.mem;
    }
  }

  lemma PayloadThere(h: Heap, p: int)
    requires p in h.live && HeapOk(h, {})
    ensures p in h.cs && forall a | p + 16 <= a < p + h.cs[p].size + 8 :: a in h.mem
  {
    hide SegsOk, BinsOk, TopOk;
    assert ChunkOk(h.mem, h.cs, p);
    assert Mapped(h.mem, p, h.cs[p].size);
  }

  lemma PrefixSelf(h: Heap, h': Heap, p: int, nsize: nat)
    requires p in h.live && h'.mem == h.mem && HeapOk(h, {})
    ensures PrefixMoved(h, h', p, p, nsize)
  {
    hide HeapOk;
    PayloadThere(h, p);
  }

  /** Cut at p + nb, and the rest freed. */
  lemma Shrunk(h: Heap, h1: Heap, h2: Heap, p: int, nb: nat, nsize: nat)
    requires p in h.live && p in h.cs && nb <= h.cs[p].size && nsize + 8 <= nb && h1.live == h.live[p := nsize]
    requires Kept(h, h1, h.live.Keys - {p}) && PrefixKept(h, h1, p, p + nb + 8) && p in h1.cs && h1.cs[p].size == nb
    requires Kept(h1, h2, h1.live.Keys) && HeapOk(h, {})
    ensures Kept(h, h2, h.live.Keys - {p}) && PrefixMoved(h, h2, p, p, nsize)
  {
    hide *;
    PayloadThere(h, p);
    assert h1.live.Keys == h.live.Keys;
    ShrunkPrefix(h, h1, h2, p, nb, nsize);
    KeptLess(h1, h2, h1.live.Keys, h.live.Keys - {p});
    KeptThen(h, h1, h2, h.live.Keys - {p});
  }

  lemma ShrunkPrefix(h: Heap, h1: Heap, h2: Heap, p: int, nb: nat, nsize: nat)
    requires p in h.cs && nb <= h.cs[p].size && nsize + 8 <= nb && p in h1.live && p in h1.cs && h1.cs[p].size == nb
    requires PrefixKept(h, h1, p, p + nb + 8) && Kept(h1, h2, h1.live.Keys)
    requires forall a | p + 16 <= a < p + h.cs[p].size + 8 :: a in h.mem
    ensures PrefixMoved(h, h2, p, p, nsize)
  {
    var from := p + 16;
    forall k | 0 <= k < Least(h.cs[p].size - 8, nsize) ensures CopiedAt(h.mem, from, h2.mem, from, k) {
      assert InPayload(h1, p, from + k);
    }
  }

  lemma SourceKept(h: Heap, h': Heap, blocks: set<int>, p: int, a: int)
    requires p in blocks && p in h.live && p in h.cs && InPayload(h, p, a) && Kept(h, h', blocks) && HeapOk(h, {})
    ensures a in h.mem && a in h'.mem && h'.mem[a] == h.mem[a]
  {
    PayloadThere(h, p);
    hide HeapOk;
  }

  lemma KeptSize(h: Heap, h': Heap, p: int)
    requires p in h.live && Kept(h, h', h.live.Keys)
    ensures p in h.cs && p in h'.cs && h'.cs[p].size == h.cs[p].size
  {}

  lemma CopyStep(mem: Memory, from: int, mem1: Memory, to: int, k: nat)
    requires Copied(mem, from, mem1, to, k) && from + k in mem
    ensures Copied(mem, from, mem1[to + k := mem[from + k]], to, k + 1)
  {
    var mem2 := mem1[to + k := mem[from + k]];
    forall j | 0 <= j < k + 1 ensures CopiedAt(mem, from, mem2, to, j) {
      assert j < k ==> CopiedAt(mem, from, mem1, to, j);
    }
  }

  /** malloc gave r, the copy filled it, and then p was freed. */
  lemma Moved(h: Heap, h1: Heap, h2: Heap, h3: Heap, p: int, r: int, nsize: nat)
    requires p in h.live && r !in h.live && r in h1.live && h1.live[r] == nsize && h.live.Keys <= h1.live.Keys && h2.live == h1.live
    requires Kept(h, h1, h.live.Keys) && Kept(h1, h2, h1.live.Keys - {r}) && Kept(h2, h3, h2.live.Keys - {p})
    requires p in h.cs && Copied(h1.mem, p + 16, h2.mem, r + 16, Least(h.cs[p].size - 8, nsize))
    requires HeapOk(h, {}) && HeapOk(h2, {})
    ensures Kept(h, h3, h.live.Keys - {p}) && PrefixMoved(h, h3, p, r, nsize)
  {
    hide *;
    PayloadThere(h, p);
    LiveIs(h2, r);
    KeptLess(h, h1, h.live.Keys, h.live.Keys - {p});
    KeptLess(h1, h2, h1.live.Keys - {r}, h.live.Keys - {p});
    KeptLess(h2, h3, h2.live.Keys - {p}, h.live.Keys - {p});
    KeptThen(h, h1, h2, h.live.Keys - {p});
    KeptThen(h, h2, h3, h.live.Keys - {p});
    MovedPrefix(h, h1, h2, h3, p, r, nsize);
  }

  lemma KeptLess(h: Heap, h': Heap, blocks: set<int>, fewer: set<int>)
    requires Kept(h, h', blocks) && fewer <= blocks
    ensures Kept(h, h', fewer)
  {}

  lemma MovedPrefix(h: Heap, h1: Heap, h2: Heap, h3: Heap, p: int, r: int, nsize: nat)
    requires p in h.live && p in h.cs && r in h2.cs && nsize + 8 <= h2.cs[r].size && r != p && r in h2.live
    requires Kept(h, h1, h.live.Keys) && Kept(h2, h3, h2.live.Keys - {p})
    requires Copied(h1.mem, p + 16, h2.mem, r + 16, Least(h.cs[p].size - 8, nsize))
    requires forall a | p + 16 <= a < p + h.cs[p].size + 8 :: a in h.mem
    ensures PrefixMoved(h, h3, p, r, nsize)
  {
    var from, to := p + 16, r + 16;
    forall k | 0 <= k < Least(h.cs[p].size - 8, nsize) ensures CopiedAt(h.mem, from, h3.mem, to, k) {
      assert CopiedAt(h1.mem, from, h2.mem, to, k);
      assert InPayload(h, p, from + k) && InPayload(h2, r, to + k);
    }
  }

  // ---- What the invariant says about a segment --------------------------------------------------------------

  /** From p to e there is one chunk behind the other without gap or overlap; pinuse bits tell the
      truth about the chunk in front, and free chunks are never neighbours. */
  ghost predicate TiledFrom(cs: Chunks, p: int, e: int)
    decreases e - p
  {
    p == e || (p < e && p in cs && cs[p].size > 0 && var n := p + cs[p].size;
               && n <= e && n in cs && (forall q <- cs :: !(p < q < n))
               && (n < e ==> cs[n].pinuse == InUse(cs[p].kind) && !(cs[p].kind.Free? && cs[n].kind.Free?))
               && TiledFrom(cs, n, e))
  }

  lemma {:induction false} Tiles(mem: Memory, cs: Chunks, p: int, e: int)
    requires p in cs && e in cs && cs[e].kind.End? && p <= e && CoreOk(mem, cs)
    requires forall q <- cs | p <= q < e :: !cs[q].kind.End?
    ensures TiledFrom(cs, p, e)
    decreases e - p
  {
    if p < e {
      hide CoreOk;
      var n := p + cs[p].size;
      ChunkFacts(mem, cs, p, n);
      InFrontOf(mem, cs, e);
      FollowFacts(mem, cs, p, n);
      Tiles(mem, cs, n, e);
    }
  }

  lemma FollowFacts(mem: Memory, cs: Chunks, p: int, n: int)
    requires p in cs && n == p + cs[p].size && n in cs && n > p && !cs[p].kind.End? && ChunkOk(mem, cs, p)
    ensures !cs[n].kind.End? ==> cs[n].pinuse == InUse(cs[p].kind) && !(cs[p].kind.Free? && cs[n].kind.Free?)
  {}

  /** Every segment is tiled exactly, from its base to its end. */
  lemma SegmentTiled(h: Heap, i: nat)
    requires i < |h.segs| && HeapOk(h, {})
    ensures TiledFrom(h.cs, h.segs[i].base, SegEnd(h.segs[i]) - 8)
  {
    hide *;
    HeapParts(h, {});
    SegsParts(h);
    SegsApart(h);
    SegEnds(h, h.segs[i]);
    forall q <- h.cs | h.segs[i].base <= q < SegEnd(h.segs[i]) - 8 ensures !h.cs[q].kind.End? {
      if h.cs[q].kind.End? {
        assert InSomeSegment(h, q);
        EndsOnce(h, i, q);
      }
    }
    Tiles(h.mem, h.cs, h.segs[i].base, SegEnd(h.segs[i]) - 8);
  }

  /** Chunks behind the base lead to the end. */
  lemma SegEnds(h: Heap, s: Segment)
    requires SegOk(h, s)
    ensures s.base in h.cs && SegEnd(s) - 8 in h.cs && h.cs[SegEnd(s) - 8].kind.End? && s.base <= SegEnd(s) - 8
  {}

  lemma EndsOnce(h: Heap, i: nat, q: int)
    requires i < |h.segs| && q in h.cs && h.cs[q].kind.End? && InSomeSegment(h, q)
    requires forall j, k | 0 <= j < k < |h.segs| :: SegApart(h.segs[j], h.segs[k])
    ensures !(h.segs[i].base <= q < SegEnd(h.segs[i]) - 8)
  {
    var j :| 0 <= j < |h.segs| && Inside(h.cs, h.segs[j], q);
    EitherWay(h, i, j);
  }

  // ---- Plain blocks -------------------------------------------------------------------------------------------

  /** A call of lj_alloc_f, or a store of the program into byte k of a block of its own. */
  datatype Request = Alloc(ptr: int, nsize: nat) | Store(block: int, k: nat, v: int)

  predicate Permitted(live: map<int, nat>, q: Request) {
    match q
    case Alloc(ptr, nsize) => (ptr == 0 || ptr in live) && nsize < SIZE_T_RANGE
    case Store(p, k, _) => p in live && k < live[p]
  }

  /** A block that is handed out is new, or the one that was to change its size. */
  predicate AnswerOk(live: map<int, nat>, q: Request, r: int) {
    q.Alloc? && q.nsize > 0 && r != 0 ==> r == q.ptr || r !in live
  }

  /** The sizes of the program's blocks after a request answered by r. */
  function Served(live: map<int, nat>, q: Request, r: int): map<int, nat> {
    match q
    case Store(_, _, _) => live
    case Alloc(ptr, nsize) =>
      if nsize == 0 then live - {ptr} else if r == 0 then live else (live - {ptr})[r := nsize]
  }

  /** What the program knows of its blocks afterwards: byte offsets and values. */
  function Learned(known: map<int, map<int, int>>, q: Request, r: int): map<int, map<int, int>> {
    match q
    case Store(p, k, v) => if p in known then known[p := known[p][k := v]] else known
    case Alloc(ptr, nsize) =>
      if nsize == 0 then known - {ptr}
      else if r == 0 then known
      else (known - {ptr})[r := if ptr in known then Below(known[ptr], nsize) else map[]]
  }

  function Below(m: map<int, int>, n: nat): map<int, int> {
    map k <- m | k < n :: m[k]
  }

  ghost predicate BlockHolds(mem: Memory, p: int, size: nat, m: map<int, int>) {
    forall k <- m :: 0 <= k < size && p + 16 + k in mem && mem[p + 16 + k] == m[k]
  }

  ghost predicate BlocksHold(mem: Memory, live: map<int, nat>, known: map<int, map<int, int>>) {
    forall p <- known :: p in live && BlockHolds(mem, p, live[p], known[p])
  }

  /** A block that is kept still holds what it held. */
  lemma StillHolds(h: Heap, h': Heap, p: int, size: nat, m: map<int, int>, blocks: set<int>)
    requires p in blocks && p in h.live && size == h.live[p] && BlockHolds(h.mem, p, size, m) && Kept(h, h', blocks)
    requires HeapOk(h, {})
    ensures BlockHolds(h'.mem, p, size, m)
  {
    hide HeapOk;
    LiveIs(h, p);
    forall k <- m ensures p + 16 + k in h'.mem && h'.mem[p + 16 + k] == m[k] {
      assert InPayload(h, p, p + 16 + k);
    }
  }

  lemma OthersHold(h: Heap, h': Heap, known: map<int, map<int, int>>, p: int, blocks: set<int>)
    requires BlocksHold(h.mem, h.live, known) && known.Keys == h.live.Keys && Kept(h, h', blocks) && h.live.Keys - {p} <= blocks
    requires HeapOk(h, {})
    ensures forall q <- known | q != p :: BlockHolds(h'.mem, q, h.live[q], known[q])
  {
    hide HeapOk, BlockHolds, Kept;
    forall q <- known | q != p ensures BlockHolds(h'.mem, q, h.live[q], known[q]) {
      StillHolds(h, h', q, h.live[q], known[q], blocks);
    }
  }

  lemma LearnStore(h: Heap, h': Heap, known: map<int, map<int, int>>, p: int, k: nat, v: int)
    requires BlocksHold(h.mem, h.live, known) && known.Keys == h.live.Keys && p in h.live && k < h.live[p]
    requires h' == h.(mem := h.mem[p + 16 + k := v]) && Kept(h, h', h.live.Keys - {p}) && HeapOk(h, {})
    ensures var known' := Learned(known, Request.Store(p, k, v), 0);
      known'.Keys == h'.live.Keys && BlocksHold(h'.mem, h'.live, known')
  {
    hide HeapOk, Kept;
    OthersHold(h, h', known, p, h.live.Keys - {p});
  }

  lemma LearnFree(h: Heap, h': Heap, known: map<int, map<int, int>>, p: int)
    requires BlocksHold(h.mem, h.live, known) && known.Keys == h.live.Keys
    requires h'.live == h.live - {p} && Kept(h, h', h.live.Keys - {p}) && HeapOk(h, {})
    ensures var known' := Learned(known, Alloc(p, 0), 0);
      known'.Keys == h'.live.Keys && BlocksHold(h'.mem, h'.live, known')
  {
    hide HeapOk, Kept, BlockHolds;
    OthersHold(h, h', known, p, h.live.Keys - {p});
  }

  lemma LearnMalloc(h: Heap, h': Heap, known: map<int, map<int, int>>, r: int, nsize: nat)
    requires BlocksHold(h.mem, h.live, known) && known.Keys == h.live.Keys && 0 !in h.live && r !in h.live && nsize > 0 && r != 0
    requires h'.live == h.live[r := nsize] && Kept(h, h', h.live.Keys) && HeapOk(h, {})
    ensures var known' := Learned(known, Alloc(0, nsize), r);
      known'.Keys == h'.live.Keys && BlocksHold(h'.mem, h'.live, known')
    ensures Served(h.live, Alloc(0, nsize), r) == h'.live
  {
    hide HeapOk, Kept;
    OthersHold(h, h', known, r, h.live.Keys);
    assert h.live - {0} == h.live;
  }

  lemma LearnRealloc(h: Heap, h': Heap, known: map<int, map<int, int>>, p: int, r: int, nsize: nat)
    requires BlocksHold(h.mem, h.live, known) && known.Keys == h.live.Keys && p in h.live && nsize > 0 && r != 0
    requires (r == p || r !in h.live) && h'.live == (h.live - {p})[r := nsize]
    requires Kept(h, h', h.live.Keys - {p}) && PrefixMoved(h, h', p, r, nsize) && HeapOk(h, {})
    ensures var known' := Learned(known, Alloc(p, nsize), r);
      known'.Keys == h'.live.Keys && BlocksHold(h'.mem, h'.live, known')
  {
    hide HeapOk, Kept, BlockHolds, PrefixMoved;
    LiveIs(h, p);
    OthersHold(h, h', known, p, h.live.Keys - {p});
    assert BlockHolds(h.mem, p, h.live[p], known[p]);
    PrefixHolds(h, h', p, r, nsize, known[p]);
  }

  lemma PrefixHolds(h: Heap, h': Heap, p: int, r: int, nsize: nat, m: map<int, int>)
    requires p in h.live && p in h.cs && h.live[p] + 8 <= h.cs[p].size && BlockHolds(h.mem, p, h.live[p], m)
    requires PrefixMoved(h, h', p, r, nsize)
    ensures BlockHolds(h'.mem, r, nsize, Below(m, nsize))
  {
    forall k <- Below(m, nsize) ensures 0 <= k < nsize && r + 16 + k in h'.mem && h'.mem[r + 16 + k] == m[k] {
      assert CopiedAt(h.mem, p + 16, h'.mem, r + 16, k);
    }
  }

  // ---- Runs -----------------------------------------------------------------------------------------------------

  /** The blocks after a run of requests from no blocks at all. */
  function Blocks(qs: seq<Request>, rs: seq<int>): map<int, nat>
    requires |rs| == |qs|
  {
    if qs == [] then map[] else
    var n := |qs| - 1;
    var live := Blocks(qs[..n], rs[..n]);
    if Permitted(live, qs[n]) then Served(live, qs[n], rs[n]) else live
  }

  /** What the program has put there. */
  function Known(qs: seq<Request>, rs: seq<int>): map<int, map<int, int>>
    requires |rs| == |qs|
  {
    if qs == [] then map[] else
    var n := |qs| - 1;
    var known := Known(qs[..n], rs[..n]);
    if Permitted(Blocks(qs[..n], rs[..n]), qs[n]) then Learned(known, qs[n], rs[n]) else known
  }

  lemma NothingDone(qs: seq<Request>)
    ensures Blocks(qs[..0], []) == map[] && Known(qs[..0], []) == map[]
  {}

  lemma RunStep(qs: seq<Request>, rs: seq<int>, i: nat, r: int)
    requires i < |qs| && |rs| == i
    ensures var live, known := Blocks(qs[..i], rs), Known(qs[..i], rs);
      && Blocks(qs[..i + 1], rs + [r]) == (if Permitted(live, qs[i]) then Served(live, qs[i], r) else live)
      && Known(qs[..i + 1], rs + [r]) == (if Permitted(live, qs[i]) then Learned(known, qs[i], r) else known)
  {
    assert qs[..i + 1][..i] == qs[..i];
    assert (rs + [r])[..i] == rs;
  }

  lemma AnswersStep(qs: seq<Request>, rs: seq<int>, r: int)
    requires |rs| < |qs| && AnswerOk(Blocks(qs[..|rs|], rs), qs[|rs|], r)
    requires forall i | 0 <= i < |rs| :: AnswerOk(Blocks(qs[..i], rs[..i]), qs[i], rs[i])
    ensures forall i | 0 <= i <= |rs| :: AnswerOk(Blocks(qs[..i], (rs + [r])[..i]), qs[i], (rs + [r])[i])
  {
    hide AnswerOk, Blocks;
    forall i | 0 <= i <= |rs| ensures AnswerOk(Blocks(qs[..i], (rs + [r])[..i]), qs[i], (rs + [r])[i]) {
      assert (rs + [r])[..i] == rs[..i];
    }
    assert rs[..|rs|] == rs;
  }
}
