/** What each macro on head and foot words does to the whole heap. In every lemma h' is h after
    the macro's stores, with the chunks following. */
module Steps {
  import opened Core
  import opened Heap

  lemma FreeFacts(h: Heap, loose: set<int>, p: int)
    requires p in loose && HeapOk(h, loose)
    ensures FreeAt(h, p) && p !in h.live
    ensures p !in h.small && p !in h.large && (h.dvsize > 0 ==> p != h.dv)
  {}

  /** A chunk with a real successor, as a range. */
  lemma ChunkRange(mem: Memory, cs: Chunks, p: int, n: int)
    requires p in cs && n == p + cs[p].size && !cs[p].kind.End? && !cs[p].kind.Tail? && !cs[p].kind.Fence?
    requires CoreOk(mem, cs)
    ensures p > 0 && p % 8 == 0 && n % 8 == 0 && SizeOk(cs[p]) && n in cs && SizeOk(cs[n]) && p < n
    ensures RangeOk(cs, p, n) && (forall q <- cs :: !(p < q < n))
    ensures MayFollow(cs[p].kind, cs[n].kind) && cs[n].pinuse == InUse(cs[p].kind)
    ensures HeadAt(mem, p, cs[p]) && HeadAt(mem, n, cs[n]) && n in mem
    ensures cs[p].kind.Free? ==> mem[n] == n - p
    ensures Mapped(mem, p, n - p)
  {
    hide CoreOk, BackOk, Mapped;
    ChunkFacts(mem, cs, p, n);
    hide Head, HeadAt;
  }

  /** The chunk at p is all there is between p and n; who else does not care about it. */
  lemma FreeRange(h: Heap, loose: set<int>, p: int, n: int)
    requires FreeAt(h, p) && p < n && forall q <- h.cs :: !(p < q < n)
    requires p in loose && TopOk(h) && LiveOk(h)
    ensures LooseInside(h, loose, p, n) && NoTopInside(h, p, n) && forall q <- h.live :: !(p <= q < n)
  {}

  /** set_inuse_and_pinuse(M, p, s) on a whole free chunk. */
  lemma UseWhole(h: Heap, loose: set<int>, p: int, n: int, h': Heap)
    requires p in loose && p in h.cs && n == p + h.cs[p].size && p < n && n in h.cs && n + 8 in h.mem
    requires h' == h.(mem := h.mem[p + 8 := n - p + 3][n + 8 := WithPinuse(h.mem[n + 8])],
                      cs := Put1(h.cs, p, n, Used))
    requires HeapOk(h, loose)
    ensures HeapOk(h', loose - {p}) && Kept(h, h', h.live.Keys) && p !in h.live
    ensures p in h'.cs && h'.cs[p] == Chunk(n - p, Used, true)
  {
    hide *;
    FreeFacts(h, loose, p);
    HeapParts(h, loose);
    UseWholeCore(h, p, n, h');
    FreeRange(h, loose, p, n);
    OneLoose(h, loose, p, n);
    Same(h, h');
    Put1Step(h, h', loose, p, n, Used);
  }

  lemma Same(h: Heap, h': Heap)
    requires h' == h.(mem := h'.mem, cs := h'.cs, top := h'.top, topsize := h'.topsize)
    ensures SameRest(h, h')
  {}

  lemma OneLoose(h: Heap, loose: set<int>, p: int, n: int)
    requires BinsOk(h, loose) && p in loose && p < n && forall q <- h.cs :: !(p < q < n)
    ensures LooseAfter(loose, p, n, {}) == loose - {p}
    ensures forall r :: LooseAfter(loose, p, n, {r}) == loose - {p} + {r}
  {}

  lemma UseWholeCore(h: Heap, p: int, n: int, h': Heap)
    requires FreeAt(h, p) && n == p + h.cs[p].size && p < n && n in h.cs && n + 8 in h.mem
    requires h' == h.(mem := h.mem[p + 8 := n - p + 3][n + 8 := WithPinuse(h.mem[n + 8])],
                      cs := Put1(h.cs, p, n, Used))
    requires CoreOk(h.mem, h.cs)
    ensures RangeOk(h.cs, p, n) && SameWordsOutside(h.mem, h'.mem, p, n) && CoreOk(h'.mem, h'.cs)
    ensures SameToPredecessor(h.cs[p], Chunk(n - p, Used, h.cs[p].pinuse)) && h.cs[p].pinuse
    ensures p in h'.cs && h'.cs[p] == Chunk(n - p, Used, true) && (forall q <- h.cs :: !(p < q < n))
  {
    hide CoreOk, Put1, RangeOk, Mapped;
    ChunkRange(h.mem, h.cs, p, n);
    HeadBits(h.cs[n]);
    Put1Shape(h.cs, p, n, Used);
    hide SameOutside;
    Put1Ok(h.mem, h.cs, h'.mem, p, n, Used, Chunk(n - p, Used, true), h.cs[n].(pinuse := true));
  }

  /** set_size_and_pinuse_of_inuse_chunk on the front of a free chunk, and
      set_size_and_pinuse_of_free_chunk on the remainder from mid to n. */
  lemma UseFront(h: Heap, loose: set<int>, p: int, mid: int, n: int, h': Heap)
    requires p in loose && p in h.cs && n == p + h.cs[p].size && p < n && n in h.cs
    requires mid % 8 == 0 && mid - p >= MIN_CHUNK_SIZE && n - mid >= MIN_CHUNK_SIZE
    requires h' == h.(mem := h.mem[p + 8 := mid - p + 3][mid + 8 := n - mid + 1][n := n - mid],
                      cs := Put2(h.cs, p, mid, n, Used, Free))
    requires HeapOk(h, loose)
    ensures HeapOk(h', loose - {p} + {mid}) && Kept(h, h', h.live.Keys) && p !in h.live
    ensures p in h'.cs && h'.cs[p] == Chunk(mid - p, Used, true)
    ensures mid in h'.cs && h'.cs[mid] == Chunk(n - mid, Free, true)
  {
    hide *;
    FreeFacts(h, loose, p);
    HeapParts(h, loose);
    UseFrontCore(h, p, mid, n, h');
    FreeRange(h, loose, p, n);
    OneLoose(h, loose, p, n);
    Same(h, h');
    LiveOutside(h, h', p, n);
    Put2Step(h, h', loose, p, mid, n, Free);
  }

  lemma LiveOutside(h: Heap, h': Heap, p: int, n: int)
    requires h'.live == h.live && forall q <- h.live :: !(p <= q < n)
    ensures h'.(live := h.live) == h'
    ensures forall q <- h'.live :: !(p <= q < n) && q in h.live && h'.live[q] == h.live[q]
  {}

  lemma UseFrontCore(h: Heap, p: int, mid: int, n: int, h': Heap)
    requires FreeAt(h, p) && n == p + h.cs[p].size && p < n && n in h.cs
    requires mid % 8 == 0 && mid - p >= MIN_CHUNK_SIZE && n - mid >= MIN_CHUNK_SIZE
    requires h' == h.(mem := h.mem[p + 8 := mid - p + 3][mid + 8 := n - mid + 1][n := n - mid],
                      cs := Put2(h.cs, p, mid, n, Used, Free))
    requires CoreOk(h.mem, h.cs)
    ensures p < mid < n && RangeOk(h.cs, p, n) && SameWordsOutside(h.mem, h'.mem, p, n) && CoreOk(h'.mem, h'.cs)
    ensures SameToPredecessor(h.cs[p], Chunk(mid - p, Used, h.cs[p].pinuse)) && h.cs[p].pinuse
    ensures p in h'.cs && h'.cs[p] == Chunk(mid - p, Used, true) && (forall q <- h.cs :: !(p < q < n))
    ensures mid in h'.cs && h'.cs[mid] == Chunk(n - mid, Free, true)
  {
    hide CoreOk, Put2, RangeOk;
    ChunkRange(h.mem, h.cs, p, n);
    Put2Shape(h.cs, p, mid, n, Used, Free);
    assert mid + 8 in h.mem;
    hide SameOutside, Mapped;
    Put2Ok(h.mem, h.cs, h'.mem, p, mid, n, Used, Free,
           Chunk(mid - p, Used, true), Chunk(n - mid, Free, true), h.cs[n]);
  }

  /** Splitting top at mid: the remainder gets its head word, then the block does. */
  lemma UseTopFront(h: Heap, loose: set<int>, mid: int, n: int, h': Heap)
    requires h.top in h.cs && n == h.top + h.topsize && n in h.cs
    requires mid % 8 == 0 && mid - h.top >= MIN_CHUNK_SIZE && mid < n
    requires h' == h.(mem := h.mem[mid + 8 := n - mid + 1][h.top + 8 := mid - h.top + 3],
                      cs := Put2(h.cs, h.top, mid, n, Used, Top), top := mid, topsize := n - mid)
    requires HeapOk(h, loose)
    ensures HeapOk(h', loose) && Kept(h, h', h.live.Keys) && h.top !in h.live
    ensures h.top in h'.cs && h'.cs[h.top] == Chunk(mid - h.top, Used, true)
  {
    hide *;
    HeapParts(h, loose);
    TopFacts(h, n);
    UseTopFrontCore(h, mid, n, h');
    TopRange(h, loose, h.top, n);
    Same(h, h');
    LiveOutside(h, h', h.top, n);
    LooseOutside(h, loose, h.top, n);
    Put2Step(h, h', loose, h.top, mid, n, Top);
  }

  lemma TopFacts(h: Heap, n: int)
    requires TopOk(h) && n == h.top + h.topsize
    ensures h.top in h.cs && h.cs[h.top].kind.Top? && h.cs[h.top].size == h.topsize
  {}

  lemma TopRange(h: Heap, loose: set<int>, p: int, n: int)
    requires p in h.cs && h.cs[p].kind.Top? && p < n && forall q <- h.cs :: !(p < q < n)
    requires BinsOk(h, loose) && LiveOk(h)
    ensures LooseInside(h, loose, p, n) && (forall q <- h.live :: !(p <= q < n)) && p !in h.live
  {}

  lemma LooseOutside(h: Heap, loose: set<int>, p: int, n: int)
    requires BinsOk(h, loose) && p in h.cs && !h.cs[p].kind.Free? && forall q <- h.cs :: !(p < q < n)
    ensures LooseAfter(loose, p, n, {}) == loose
  {}

  lemma UseTopFrontCore(h: Heap, mid: int, n: int, h': Heap)
    requires h.top in h.cs && h.cs[h.top].kind.Top? && h.cs[h.top].size == h.topsize
    requires n == h.top + h.topsize && n in h.cs
    requires mid % 8 == 0 && mid - h.top >= MIN_CHUNK_SIZE && mid < n
    requires h' == h.(mem := h.mem[mid + 8 := n - mid + 1][h.top + 8 := mid - h.top + 3],
                      cs := Put2(h.cs, h.top, mid, n, Used, Top), top := mid, topsize := n - mid)
    requires CoreOk(h.mem, h.cs)
    ensures h.top < mid && RangeOk(h.cs, h.top, n) && SameWordsOutside(h.mem, h'.mem, h.top, n) && CoreOk(h'.mem, h'.cs)
    ensures SameToPredecessor(h.cs[h.top], Chunk(mid - h.top, Used, h.cs[h.top].pinuse)) && mid !in h.cs
    ensures h.top in h'.cs && h'.cs[h.top] == Chunk(mid - h.top, Used, true) && (forall q <- h.cs :: !(h.top < q < n))
  {
    hide CoreOk, Put2, RangeOk;
    ChunkRange(h.mem, h.cs, h.top, n);
    Put2Shape(h.cs, h.top, mid, n, Used, Top);
    assert mid + 8 in h.mem;
    hide SameOutside, Mapped;
    Put2Ok(h.mem, h.cs, h'.mem, h.top, mid, n, Used, Top,
           Chunk(mid - h.top, Used, true), Chunk(n - mid, Top, true), h.cs[n]);
  }

  /** set_free_with_pinuse: everything from lo to hi becomes one free chunk. */
  lemma JoinFree(h: Heap, loose: set<int>, lo: int, hi: int, h': Heap)
    requires lo in h.cs && hi in h.cs && lo < hi && RangeOk(h.cs, lo, hi) && h.cs[lo].pinuse && (h.cs[lo].kind.Used? || h.cs[lo].kind.Free?)
    requires InUse(h.cs[hi].kind) && hi - lo >= MIN_CHUNK_SIZE && hi + 8 in h.mem
    requires LooseInside(h, loose, lo, hi) && NoTopInside(h, lo, hi) && forall q <- h.live :: !(lo <= q < hi)
    requires h' == h.(mem := h.mem[hi + 8 := WithoutPinuse(h.mem[hi + 8])][lo + 8 := hi - lo + 1][hi := hi - lo],
                      cs := Put1(h.cs, lo, hi, Free))
    requires HeapOk(h, loose)
    ensures HeapOk(h', LooseAfter(loose, lo, hi, {lo})) && Kept(h, h', h.live.Keys)
    ensures lo in h'.cs && h'.cs[lo] == Chunk(hi - lo, Free, true)
  {
    hide *;
    HeapParts(h, loose);
    JoinFreeCore(h, lo, hi, h');
    Same(h, h');
    Put1Step(h, h', loose, lo, hi, Free);
  }

  lemma RangeEnds(mem: Memory, cs: Chunks, lo: int, hi: int)
    requires lo in cs && hi in cs && RangeOk(cs, lo, hi) && CoreOk(mem, cs)
    ensures lo % 8 == 0 && hi % 8 == 0 && lo + 8 in mem && hi in mem && HeadAt(mem, hi, cs[hi])
    ensures SizeOk(cs[lo]) && SizeOk(cs[hi])
  {
    RangeMapped(mem, cs, lo, hi);
    assert ChunkOk(mem, cs, lo) && ChunkOk(mem, cs, hi);
    hide CoreOk, RangeOk, BackOk, MayFollow, SizeOk;
    assert hi in mem;
  }

  lemma JoinFreeCore(h: Heap, lo: int, hi: int, h': Heap)
    requires lo in h.cs && hi in h.cs && lo < hi && RangeOk(h.cs, lo, hi) && h.cs[lo].pinuse && (h.cs[lo].kind.Used? || h.cs[lo].kind.Free?)
    requires InUse(h.cs[hi].kind) && hi - lo >= MIN_CHUNK_SIZE && hi + 8 in h.mem
    requires h' == h.(mem := h.mem[hi + 8 := WithoutPinuse(h.mem[hi + 8])][lo + 8 := hi - lo + 1][hi := hi - lo],
                      cs := Put1(h.cs, lo, hi, Free))
    requires CoreOk(h.mem, h.cs)
    ensures SameWordsOutside(h.mem, h'.mem, lo, hi) && CoreOk(h'.mem, h'.cs)
    ensures SameToPredecessor(h.cs[lo], Chunk(hi - lo, Free, h.cs[lo].pinuse))
    ensures lo in h'.cs && h'.cs[lo] == Chunk(hi - lo, Free, true)
  {
    hide CoreOk, Put1, RangeOk;
    RangeEnds(h.mem, h.cs, lo, hi);
    HeadBits(h.cs[hi]);
    Put1Shape(h.cs, lo, hi, Free);
    hide SameOutside;
    Put1Ok(h.mem, h.cs, h'.mem, lo, hi, Free, Chunk(hi - lo, Free, true), h.cs[hi].(pinuse := false));
  }

  /** Everything from lo to the end of top becomes the top chunk. */
  lemma JoinTop(h: Heap, loose: set<int>, lo: int, hi: int, h': Heap)
    requires lo in h.cs && hi in h.cs && lo < hi && RangeOk(h.cs, lo, hi) && h.cs[lo].pinuse && (h.cs[lo].kind.Used? || h.cs[lo].kind.Free?)
    requires hi == h.top + h.topsize && lo <= h.top < hi
    requires LooseInside(h, loose, lo, hi) && forall q <- h.live :: !(lo <= q < hi)
    requires h' == h.(mem := h.mem[lo + 8 := hi - lo + 1], cs := Put1(h.cs, lo, hi, Top), top := lo, topsize := hi - lo)
    requires HeapOk(h, loose)
    ensures HeapOk(h', LooseAfter(loose, lo, hi, {})) && Kept(h, h', h.live.Keys)
  {
    hide *;
    HeapParts(h, loose);
    TopFacts(h, hi);
    JoinTopCore(h, lo, hi, h');
    Same(h, h');
    Put1Step(h, h', loose, lo, hi, Top);
  }

  lemma JoinTopCore(h: Heap, lo: int, hi: int, h': Heap)
    requires lo in h.cs && hi in h.cs && lo < hi && RangeOk(h.cs, lo, hi) && h.cs[lo].pinuse && (h.cs[lo].kind.Used? || h.cs[lo].kind.Free?)
    requires h.top in h.cs && h.cs[h.top].kind.Top? && h.cs[h.top].size == h.topsize
    requires hi == h.top + h.topsize && lo <= h.top < hi
    requires h' == h.(mem := h.mem[lo + 8 := hi - lo + 1], cs := Put1(h.cs, lo, hi, Top), top := lo, topsize := hi - lo)
    requires CoreOk(h.mem, h.cs)
    ensures SameWordsOutside(h.mem, h'.mem, lo, hi) && CoreOk(h'.mem, h'.cs)
    ensures SameToPredecessor(h.cs[lo], Chunk(hi - lo, Top, h.cs[lo].pinuse))
  {
    hide CoreOk, Put1, RangeOk, Mapped;
    RangeEnds(h.mem, h.cs, lo, hi);
    ChunkRange(h.mem, h.cs, h.top, hi);
    Put1Shape(h.cs, lo, hi, Top);
    hide SameOutside;
    Put1Ok(h.mem, h.cs, h'.mem, lo, hi, Top, Chunk(hi - lo, Top, true), h.cs[hi]);
  }

  /** The words of the block at p before `end` are untouched. */
  ghost predicate PrefixKept(h: Heap, h': Heap, p: int, end: int) {
    forall a | p + 16 <= a < end && a in h.mem :: a in h'.mem && h'.mem[a] == h.mem[a]
  }

  /** set_inuse twice: the block at p is cut at mid, and the rest is a block of nobody. */
  lemma SplitUsed(h: Heap, loose: set<int>, p: int, mid: int, n: int, nsize: nat, h': Heap)
    requires p in h.live && p in h.cs && h.cs[p].kind.Used? && n == p + h.cs[p].size && n in h.cs
    requires mid % 8 == 0 && mid - p >= MIN_CHUNK_SIZE && n - mid >= MIN_CHUNK_SIZE && nsize + 8 <= mid - p
    requires h' == h.(mem := h.mem[p + 8 := mid - p + 2 + (if h.cs[p].pinuse then 1 else 0)][mid + 8 := n - mid + 3],
                      cs := Put2(h.cs, p, mid, n, Used, Used), live := h.live[p := nsize])
    requires HeapOk(h, loose)
    ensures HeapOk(h', loose) && Kept(h, h', h.live.Keys - {p}) && PrefixKept(h, h', p, mid + 8)
    ensures p in h'.cs && h'.cs[p] == Chunk(mid - p, Used, h.cs[p].pinuse)
    ensures mid in h'.cs && h'.cs[mid] == Chunk(n - mid, Used, true) && mid !in h'.live
  {
    hide *;
    HeapParts(h, loose);
    SplitUsedCore(h, p, mid, n, nsize, h');
    UsedRange(h, loose, p, n);
    LooseOutside(h, loose, p, n);
    SameLive(h, h');
    LiveCut(h, h', p, mid, n, nsize);
    Put2Step(h, h', loose, p, mid, n, Used);
  }

  lemma SameLive(h: Heap, h': Heap)
    requires h' == h.(mem := h'.mem, cs := h'.cs, live := h'.live, top := h'.top, topsize := h'.topsize)
    ensures SameRest(h, h'.(live := h.live))
  {}

  lemma LiveCut(h: Heap, h': Heap, p: int, mid: int, n: int, nsize: nat)
    requires h'.live == h.live[p := nsize] && nsize + 8 <= mid - p && p < mid < n && mid !in h.cs && LiveOk(h)
    requires forall q <- h.cs :: !(p < q < n)
    ensures forall q <- h'.live :: if p <= q < n then q == p && h'.live[q] + 8 <= mid - p
                                   else q in h.live && h'.live[q] == h.live[q]
    ensures mid !in h'.live && forall q <- h.live.Keys - {p} :: !(p <= q < n)
  {}

  lemma UsedRange(h: Heap, loose: set<int>, p: int, n: int)
    requires p in h.cs && h.cs[p].kind.Used? && p < n && forall q <- h.cs :: !(p < q < n)
    requires BinsOk(h, loose) && TopOk(h)
    ensures LooseInside(h, loose, p, n) && NoTopInside(h, p, n)
  {}

  lemma SplitUsedCore(h: Heap, p: int, mid: int, n: int, nsize: nat, h': Heap)
    requires p in h.cs && h.cs[p].kind.Used? && n == p + h.cs[p].size && n in h.cs
    requires mid % 8 == 0 && mid - p >= MIN_CHUNK_SIZE && n - mid >= MIN_CHUNK_SIZE
    requires h' == h.(mem := h.mem[p + 8 := mid - p + 2 + (if h.cs[p].pinuse then 1 else 0)][mid + 8 := n - mid + 3],
                      cs := Put2(h.cs, p, mid, n, Used, Used), live := h.live[p := nsize])
    requires CoreOk(h.mem, h.cs)
    ensures p < mid < n && RangeOk(h.cs, p, n) && SameWordsOutside(h.mem, h'.mem, p, n) && CoreOk(h'.mem, h'.cs)
    ensures SameToPredecessor(h.cs[p], Chunk(mid - p, Used, h.cs[p].pinuse)) && mid !in h.cs
    ensures p in h'.cs && h'.cs[p] == Chunk(mid - p, Used, h.cs[p].pinuse) && (forall q <- h.cs :: !(p < q < n))
    ensures mid in h'.cs && h'.cs[mid] == Chunk(n - mid, Used, true) && PrefixKept(h, h', p, mid + 8)
  {
    hide CoreOk, Put2, RangeOk;
    ChunkRange(h.mem, h.cs, p, n);
    Put2Shape(h.cs, p, mid, n, Used, Used);
    assert mid + 8 in h.mem;
    hide SameOutside, Mapped;
    Put2Ok(h.mem, h.cs, h'.mem, p, mid, n, Used, Used,
           Chunk(mid - p, Used, h.cs[p].pinuse), Chunk(n - mid, Used, true), h.cs[n].(pinuse := true));
  }

  /** The block at p takes the front of the top chunk behind it. */
  lemma GrowIntoTop(h: Heap, loose: set<int>, p: int, mid: int, n: int, nsize: nat, h': Heap)
    requires p in h.live && p in h.cs && h.cs[p].kind.Used? && h.top == p + h.cs[p].size && n == h.top + h.topsize
    requires n in h.cs && mid % 8 == 0 && h.top < mid < n && nsize + 8 <= mid - p
    requires h' == h.(mem := h.mem[p + 8 := mid - p + 2 + (if h.cs[p].pinuse then 1 else 0)][mid + 8 := n - mid + 1],
                      cs := Put2(h.cs, p, mid, n, Used, Top), live := h.live[p := nsize], top := mid, topsize := n - mid)
    requires HeapOk(h, loose)
    ensures HeapOk(h', loose) && Kept(h, h', h.live.Keys - {p}) && PrefixKept(h, h', p, h.top + 8)
    ensures p in h'.cs && h'.cs[p] == Chunk(mid - p, Used, h.cs[p].pinuse)
  {
    hide *;
    HeapParts(h, loose);
    TopFacts(h, n);
    GrowCore(h, p, mid, n, nsize, h');
    GrowRange(h, loose, p, mid, n, nsize, h');
    SameLive(h, h');
    Put2Step(h, h', loose, p, mid, n, Top);
  }

  lemma GrowRange(h: Heap, loose: set<int>, p: int, mid: int, n: int, nsize: nat, h': Heap)
    requires p in h.cs && h.cs[p].kind.Used? && h.top in h.cs && h.cs[h.top].kind.Top? && p < h.top < mid < n
    requires forall q <- h.cs :: p <= q < n ==> q == p || q == h.top
    requires h'.live == h.live[p := nsize] && nsize + 8 <= mid - p
    requires BinsOk(h, loose) && LiveOk(h)
    ensures LooseInside(h, loose, p, n) && LooseAfter(loose, p, n, {}) == loose
    ensures forall q <- h'.live :: if p <= q < n then q == p && h'.live[q] + 8 <= mid - p
                                   else q in h.live && h'.live[q] == h.live[q]
    ensures forall q <- h.live.Keys - {p} :: !(p <= q < n)
  {}

  lemma RangesMeet(cs: Chunks, lo: int, mid: int, hi: int)
    requires RangeOk(cs, lo, mid) && RangeOk(cs, mid, hi)
    ensures RangeOk(cs, lo, hi)
  {}

  lemma GrowCore(h: Heap, p: int, mid: int, n: int, nsize: nat, h': Heap)
    requires p in h.cs && h.cs[p].kind.Used? && h.top == p + h.cs[p].size && n == h.top + h.topsize
    requires h.top in h.cs && h.cs[h.top].kind.Top? && h.cs[h.top].size == h.topsize
    requires n in h.cs && mid % 8 == 0 && h.top < mid < n
    requires h' == h.(mem := h.mem[p + 8 := mid - p + 2 + (if h.cs[p].pinuse then 1 else 0)][mid + 8 := n - mid + 1],
                      cs := Put2(h.cs, p, mid, n, Used, Top), live := h.live[p := nsize], top := mid, topsize := n - mid)
    requires CoreOk(h.mem, h.cs)
    ensures p < h.top && RangeOk(h.cs, p, n) && SameWordsOutside(h.mem, h'.mem, p, n) && CoreOk(h'.mem, h'.cs)
    ensures SameToPredecessor(h.cs[p], Chunk(mid - p, Used, h.cs[p].pinuse)) && mid !in h.cs
    ensures p in h'.cs && h'.cs[p] == Chunk(mid - p, Used, h.cs[p].pinuse)
    ensures forall q <- h.cs :: p <= q < n ==> q == p || q == h.top
    ensures PrefixKept(h, h', p, h.top + 8)
  {
    hide *;
    ChunkRange(h.mem, h.cs, p, h.top);
    ChunkRange(h.mem, h.cs, h.top, n);
    RangesMeet(h.cs, p, h.top, n);
    GrowFits(h.mem, h'.mem, h.cs[p], h.cs[n], p, h.top, mid, n);
    GrowPrefix(h, h', p, mid, h'.mem[p + 8], h'.mem[mid + 8]);
    Put2Shape(h.cs, p, mid, n, Used, Top);
    Put2Ok(h.mem, h.cs, h'.mem, p, mid, n, Used, Top, Chunk(mid - p, Used, h.cs[p].pinuse), Chunk(n - mid, Top, true), h.cs[n]);
  }

  lemma GrowPrefix(h: Heap, h': Heap, p: int, mid: int, v: int, w: int)
    requires p in h.cs && h.top < mid && h'.mem == h.mem[p + 8 := v][mid + 8 := w]
    ensures PrefixKept(h, h', p, h.top + 8)
  {}

  lemma GrowFits(mem: Memory, mem': Memory, c: Chunk, d: Chunk, p: int, top: int, mid: int, n: int)
    requires p < top < mid < n && p % 8 == 0 && mid % 8 == 0 && n % 8 == 0 && top == p + c.size
    requires c.kind.Used? && SizeOk(c) && MayFollow(Top, d.kind) && d.pinuse == InUse(Top) && SizeOk(d)
    requires mem' == mem[p + 8 := mid - p + 2 + (if c.pinuse then 1 else 0)][mid + 8 := n - mid + 1]
    requires HeadAt(mem, n, d) && HeadAt(mem, p, c) && Mapped(mem, top, n - top)
    ensures SameWordsOutside(mem, mem', p, n) && SameToPredecessor(c, Chunk(mid - p, Used, c.pinuse))
    ensures HeadAt(mem', p, Chunk(mid - p, Used, c.pinuse)) && HeadAt(mem', mid, Chunk(n - mid, Top, true)) && HeadAt(mem', n, d)
    ensures SizeOk(Chunk(mid - p, Used, c.pinuse)) && SizeOk(Chunk(n - mid, Top, true))
    ensures InUse(Used) && d == d.(pinuse := InUse(Top)) && MayFollow(Used, Top) && SizeOk(d.(pinuse := InUse(Top)))
  {}
}
