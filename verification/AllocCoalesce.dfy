/** Joining a freed chunk with its free neighbours. */
module Coalesce {
  import opened Core
  import opened Heap
  import opened Steps

  /** From lo to hi there is nothing but a chunk on its way to being free and loose free chunks. */
  ghost predicate Gap(h: Heap, loose: set<int>, lo: int, hi: int) {
    && RangeOk(h.cs, lo, hi) && LooseInside(h, loose, lo, hi) && NoTopInside(h, lo, hi)
    && (forall q <- h.live :: !(lo <= q < hi))
  }

  lemma GapUsed(h: Heap, loose: set<int>, p: int, n: int)
    requires p in h.cs && h.cs[p].kind.Used? && p !in h.live && n == p + h.cs[p].size && HeapOk(h, loose)
    ensures Gap(h, loose, p, n) && p > 0 && p % 8 == 0 && n in h.cs && n + 8 in h.mem && n % 8 == 0
    ensures h.cs[n].pinuse && !h.cs[n].kind.Tail? && !h.cs[n].kind.End? && HeadAt(h.mem, n, h.cs[n])
  {
    hide *;
    HeapParts(h, loose);
    UsedKind(h, p);
    ChunkRange(h.mem, h.cs, p, n);
    UsedRange(h, loose, p, n);
    NoLive(h, p, n);
    AfterUsed(h.mem, h.cs, p, n);
  }

  lemma UsedKind(h: Heap, p: int)
    requires p in h.cs && h.cs[p].kind.Used?
    ensures !h.cs[p].kind.End? && !h.cs[p].kind.Tail? && !h.cs[p].kind.Fence?
  {}

  lemma NoLive(h: Heap, p: int, n: int)
    requires p in h.cs && p !in h.live && LiveOk(h) && NoTopInside(h, p, n) && RangeOk(h.cs, p, n)
    requires (forall q <- h.cs :: !(p < q < n)) && exists loose :: LooseInside(h, loose, p, n)
    ensures forall q <- h.live :: !(p <= q < n)
    ensures forall loose :: LooseInside(h, loose, p, n) ==> Gap(h, loose, p, n)
  {}

  lemma AfterUsed(mem: Memory, cs: Chunks, p: int, n: int)
    requires p in cs && cs[p].kind.Used? && n in cs && MayFollow(cs[p].kind, cs[n].kind)
    requires cs[n].pinuse == InUse(cs[p].kind) && HeadAt(mem, n, cs[n])
    ensures cs[n].pinuse && !cs[n].kind.Tail? && !cs[n].kind.End? && n + 8 in mem
  {}

  lemma GapFree(h: Heap, loose: set<int>, p: int, n: int)
    requires p in loose && p in h.cs && n == p + h.cs[p].size && HeapOk(h, loose)
    ensures Gap(h, loose, p, n) && n in h.cs && InUse(h.cs[n].kind) && n + 8 in h.mem
    ensures p > 0 && p % 8 == 0 && h.cs[p].pinuse && h.cs[p].kind.Free? && n - p >= MIN_CHUNK_SIZE && n % 8 == 0
  {
    hide *;
    FreeFacts(h, loose, p);
    HeapParts(h, loose);
    FreeIs(h, p);
    ChunkRange(h.mem, h.cs, p, n);
    FreeRange(h, loose, p, n);
    GapParts(h, loose, p, n);
    AfterFree(h.mem, h.cs, p, n);
  }

  lemma FreeIs(h: Heap, p: int)
    requires FreeAt(h, p)
    ensures p in h.cs && h.cs[p].kind.Free? && !h.cs[p].kind.End? && !h.cs[p].kind.Tail? && !h.cs[p].kind.Fence?
  {}

  lemma GapParts(h: Heap, loose: set<int>, lo: int, hi: int)
    requires RangeOk(h.cs, lo, hi) && LooseInside(h, loose, lo, hi) && NoTopInside(h, lo, hi)
    requires forall q <- h.live :: !(lo <= q < hi)
    ensures Gap(h, loose, lo, hi)
  {}

  lemma AfterFree(mem: Memory, cs: Chunks, p: int, n: int)
    requires p in cs && cs[p].kind.Free? && n in cs && MayFollow(cs[p].kind, cs[n].kind) && HeadAt(mem, n, cs[n]) && SizeOk(cs[p])
    ensures InUse(cs[n].kind) && n + 8 in mem && cs[p].pinuse && cs[p].size >= MIN_CHUNK_SIZE
  {}

  lemma GapsMeet(h: Heap, loose: set<int>, lo: int, mid: int, hi: int)
    requires Gap(h, loose, lo, mid) && Gap(h, loose, mid, hi)
    ensures Gap(h, loose, lo, hi)
  {}

  /** The gap does not mind more loose chunks, nor what dv is. */
  lemma GapMore(h: Heap, h': Heap, loose: set<int>, more: set<int>, lo: int, hi: int)
    requires Gap(h, loose, lo, hi) && h'.cs == h.cs && h'.top == h.top && h'.live == h.live
    ensures Gap(h', loose + more, lo, hi)
  {}

  /** set_free_with_pinuse over a gap leaves one free chunk that is in no bin. */
  lemma FreeGap(h: Heap, loose: set<int>, lo: int, hi: int, h': Heap)
    requires lo in h.cs && hi in h.cs && lo < hi && h.cs[lo].pinuse && (h.cs[lo].kind.Used? || h.cs[lo].kind.Free?)
    requires InUse(h.cs[hi].kind) && hi - lo >= MIN_CHUNK_SIZE && hi + 8 in h.mem
    requires forall p <- loose :: lo <= p < hi
    requires h' == h.(mem := h.mem[hi + 8 := WithoutPinuse(h.mem[hi + 8])][lo + 8 := hi - lo + 1][hi := hi - lo],
                      cs := Put1(h.cs, lo, hi, Free))
    requires Gap(h, loose, lo, hi)
    requires HeapOk(h, loose)
    ensures HeapOk(h', {lo}) && Kept(h, h', h.live.Keys)
    ensures lo in h'.cs && h'.cs[lo] == Chunk(hi - lo, Free, true)
  {
    hide HeapOk, Kept, Put1, RangeOk, LooseInside;
    assert LooseAfter(loose, lo, hi, {lo}) == {lo};
    JoinFree(h, loose, lo, hi, h');
  }

  /** The gap in front of top becomes part of it. */
  lemma TopGap(h: Heap, loose: set<int>, lo: int, hi: int, h': Heap)
    requires lo in h.cs && lo < h.top && h.cs[lo].pinuse && (h.cs[lo].kind.Used? || h.cs[lo].kind.Free?)
    requires hi == h.top + h.topsize && hi in h.cs
    requires forall p <- loose :: lo <= p < h.top
    requires h' == h.(mem := h.mem[lo + 8 := hi - lo + 1], cs := Put1(h.cs, lo, hi, Top), top := lo, topsize := hi - lo)
    requires Gap(h, loose, lo, h.top)
    requires HeapOk(h, loose)
    ensures HeapOk(h', {}) && Kept(h, h', h.live.Keys)
  {
    hide *;
    HeapParts(h, loose);
    TopFacts(h, hi);
    TopKind(h);
    ChunkRange(h.mem, h.cs, h.top, hi);
    TopRange(h, loose, h.top, hi);
    BothRanges(h, loose, lo, h.top, hi);
    JoinTop(h, loose, lo, hi, h');
  }

  lemma TopKind(h: Heap)
    requires h.top in h.cs && h.cs[h.top].kind.Top?
    ensures !h.cs[h.top].kind.End? && !h.cs[h.top].kind.Tail? && !h.cs[h.top].kind.Fence?
  {}

  lemma BothRanges(h: Heap, loose: set<int>, lo: int, mid: int, hi: int)
    requires Gap(h, loose, lo, mid) && RangeOk(h.cs, mid, hi) && LooseInside(h, loose, mid, hi)
    requires forall q <- h.live :: !(mid <= q < hi)
    requires forall p <- loose :: lo <= p < mid
    ensures RangeOk(h.cs, lo, hi) && LooseInside(h, loose, lo, hi) && (forall q <- h.live :: !(lo <= q < hi))
    ensures LooseAfter(loose, lo, hi, {}) == {}
  {}
}
