/** Who owns the chunks in use, where freed memory goes, and where a request is served from. */
module Accounts {
  import opened Core
  import opened Heap
  import opened Growth
  import opened Requests
  import opened Coalesce
  import opened TreeIndex
  import SmallBins

  // ---- Chunks in use ----------------------------------------------------------------------------

  /** No other chunks than those in more have come into use, or changed their size. */
  ghost predicate SameUsed(cs: Chunks, cs': Chunks, more: set<int>) {
    forall q <- cs' | cs'[q].kind.Used? && q !in more :: q in cs && cs[q].kind.Used? && cs[q].size == cs'[q].size
  }

  lemma SameUsedSelf(cs: Chunks)
    ensures SameUsed(cs, cs, {})
  {}

  lemma SameUsedMore(cs: Chunks, more: set<int>)
    ensures SameUsed(cs, cs, more)
  {}

  lemma Put1Used(cs: Chunks, lo: int, hi: int, k: Kind)
    requires lo in cs && hi in cs
    ensures SameUsed(cs, Put1(cs, lo, hi, k), {lo})
    ensures !k.Used? && lo < hi ==> SameUsed(cs, Put1(cs, lo, hi, k), {})
  {}

  lemma Put2Used(cs: Chunks, lo: int, mid: int, hi: int, k: Kind, m: Kind)
    requires lo in cs && hi in cs && lo < mid < hi
    ensures SameUsed(cs, Put2(cs, lo, mid, hi, k, m), {lo, mid})
    ensures !m.Used? ==> SameUsed(cs, Put2(cs, lo, mid, hi, k, m), {lo})
  {}

  lemma AppendUsed(cs: Chunks, top: int, hi: int, e: int)
    requires top + TOP_FOOT_SIZE < e
    ensures SameUsed(cs, AppendChunks(cs, top, hi, e), {})
  {}

  lemma PrependUsed(cs: Chunks, t: int, nb: nat, b: int, hi: int, k: Kind)
    requires hi in cs && t + nb < hi && !k.Used? && nb > 0
    ensures SameUsed(cs, PrependChunks(cs, t, nb, b, hi, k), {t})
  {}

  lemma AddedUsed(cs: Chunks, top: int, csp: int, e: int, t: int, size: nat)
    requires size > TOP_FOOT_SIZE && top <= csp
    ensures SameUsed(cs, AddedChunks(cs, top, csp, e, t, size), {csp})
  {}

  /** Every chunk in use is a block of the program or of the allocator itself, or one of those in nobody. */
  ghost predicate AllOwned(h: Heap, nobody: set<int>) {
    forall q <- h.cs | h.cs[q].kind.Used? :: q in h.live || q in nobody
  }

  lemma StillOwned(h: Heap, h': Heap, nobody: set<int>, more: set<int>)
    requires AllOwned(h, nobody) && SameUsed(h.cs, h'.cs, more) && h.live.Keys <= h'.live.Keys
    ensures AllOwned(h', nobody + more)
  {}

  // ---- Freed memory -----------------------------------------------------------------------------

  /** All from lo to hi is in one free chunk, or in top. */
  ghost predicate GivenBack(cs: Chunks, lo: int, hi: int) {
    exists q :: q in cs && (cs[q].kind.Free? || cs[q].kind.Top?) && q <= lo && hi <= q + cs[q].size
  }

  lemma Put1Gives(cs: Chunks, lo: int, hi: int, k: Kind, a: int, b: int)
    requires lo in cs && hi in cs && lo < hi && (k.Free? || k.Top?) && lo <= a && b <= hi
    ensures GivenBack(Put1(cs, lo, hi, k), a, b)
  {
    var cs' := Put1(cs, lo, hi, k);
    assert lo in cs' && cs'[lo].size == hi - lo;
  }

  lemma GivesLess(cs: Chunks, lo: int, hi: int, a: int, b: int)
    requires GivenBack(cs, lo, hi) && lo <= a && b <= hi
    ensures GivenBack(cs, a, b)
  {}

  /** What is given back is in use no more. */
  lemma GivenUnused(h: Heap, loose: set<int>, p: int, n: int)
    requires GivenBack(h.cs, p, n) && p < n && HeapOk(h, loose)
    ensures p in h.cs ==> !h.cs[p].kind.Used?
  {
    hide BinsOk, TopOk, SegsOk, LiveOk, ChunkOk;
    var q :| q in h.cs && (h.cs[q].kind.Free? || h.cs[q].kind.Top?) && q <= p && n <= q + h.cs[q].size;
  }

  /** The designated victim stays, unless it becomes part of top; and top only grows downwards. */
  ghost predicate VictimStays(h: Heap, h': Heap) {
    && (h.dvsize == 0 ==> h'.dvsize == 0)
    && (h.dvsize > 0 ==>
          (h'.dvsize > 0 && h'.dv <= h.dv && h.dv + h.dvsize <= h'.dv + h'.dvsize) || (h'.dvsize == 0 && h'.top <= h.dv < h.top))
    && h'.top <= h.top && h'.top + h'.topsize == h.top + h.topsize
  }

  lemma VictimSame(h: Heap, h1: Heap, h': Heap)
    requires h1.dv == h.dv && h1.dvsize == h.dvsize && h1.top == h.top && h1.topsize == h.topsize && VictimStays(h1, h')
    ensures VictimStays(h, h')
  {}

  lemma VictimSelf(h: Heap)
    requires HeapOk(h, {})
    ensures VictimStays(h, h)
  {}

  // ---- Where a request is served from -----------------------------------------------------------------

  ghost predicate InBin(h: Heap, p: int) {
    p in h.small || p in h.large
  }

  ghost function BinSize(h: Heap, p: int): nat
    requires InBin(h, p)
  {
    if p in h.small then h.small[p] else h.large[p]
  }

  /** A smallest chunk in the bins of at least nb bytes. */
  ghost predicate Smallest(h: Heap, nb: nat, p: int) {
    InBin(h, p) && BinSize(h, p) >= nb && forall q | InBin(h, q) && BinSize(h, q) >= nb :: BinSize(h, p) <= BinSize(h, q)
  }

  ghost predicate HasSmall(h: Heap, s: nat) {
    exists q :: q in h.small && h.small[q] == s
  }

  /** A best fit in the trees that is better than the designated victim. */
  ghost predicate BetterThanDv(h: Heap, nb: nat, p: int) {
    BestInTree(h, nb, p) && (h.dvsize < nb || h.large[p] < h.dvsize)
  }

  /** The chunk from which a request for nb bytes is served: for small requests one of the size or the next
      one, then the designated victim, then a smallest one; for large ones a best fit that beats the designated
      victim, then that; top if nothing else fits, and the system if top does not either. */
  ghost predicate Placed(h: Heap, nb: nat, p: int) {
    if nb < MIN_LARGE_SIZE && HasSmall(h, nb) then p in h.small && h.small[p] == nb
    else if nb < MIN_LARGE_SIZE && HasSmall(h, nb + 8) then p in h.small && h.small[p] == nb + 8
    else if nb >= MIN_LARGE_SIZE && exists q :: BetterThanDv(h, nb, q) then BetterThanDv(h, nb, p)
    else if h.dvsize >= nb then p == h.dv
    else if !NoneBinned(h, nb) then Smallest(h, nb, p)
    else if h.topsize > nb then p == h.top
    else true
  }

  /** What is left of the chunk: as the designated victim for small requests, in a bin for large ones; with
      less than a minimal chunk to spare, the block takes it all. */
  ghost predicate Remains(h: Heap, h': Heap, nb: nat, p: int) {
    if InBin(h, p) then
      && h'.top == h.top && h'.topsize == h.topsize && TakenOf(h'.cs, p, nb, BinSize(h, p))
      && (if nb < MIN_LARGE_SIZE && BinSize(h, p) - nb >= MIN_CHUNK_SIZE
          then h'.dv == p + nb && h'.dvsize == BinSize(h, p) - nb else h'.dv == h.dv && h'.dvsize == h.dvsize)
    else if h.dvsize >= nb then
      && h'.top == h.top && h'.topsize == h.topsize && TakenOf(h'.cs, p, nb, h.dvsize)
      && (if h.dvsize - nb >= MIN_CHUNK_SIZE then h'.dv == p + nb && h'.dvsize == h.dvsize - nb else h'.dvsize == 0)
    else if h.topsize > nb then
      && h'.dv == h.dv && h'.dvsize == h.dvsize && h'.top == p + nb && h'.topsize == h.topsize - nb
      && p in h'.cs && h'.cs[p].size == nb
    else
      p in h'.cs && h'.cs[p].size == nb
  }

  ghost predicate TakenOf(cs: Chunks, p: int, nb: nat, size: nat) {
    p in cs && nb <= size && cs[p].size == if size - nb >= MIN_CHUNK_SIZE then nb else size
  }

  /** Memory of the system continues the segment with top at its end, or some segment at its front, or is a
      new segment; the block starts where the free memory there starts. */
  ghost predicate Grown(h: Heap, h': Heap, t: int, size: nat, p: int) {
    h.segs != [] &&
    if t == SegEnd(h.segs[0]) then
      p == h.top && h'.segs == h.segs[0 := Segment(h.segs[0].base, h.segs[0].size + size)]
    else if exists i | 0 <= i < |h.segs| :: h.segs[i].base == t + size then
      p == t && exists i | 0 <= i < |h.segs| && h.segs[i].base == t + size :: h'.segs == h.segs[i := Segment(t, size + h.segs[i].size)]
    else
      p == t && h'.segs == [Segment(t, size)] + h.segs
  }

  /** The system is asked for memory only if nothing fits. */
  ghost predicate SegsAfter(h: Heap, h': Heap, nb: nat, mm: int, p: int) {
    if NothingFits(h, nb) then Grown(h, h', mm, MmapSize(nb), p) else h'.segs == h.segs
  }

  /** The loop over the segments found the one with top exactly if the region continues it. */
  lemma EndFound(h: Heap, t: int, i: nat)
    requires i <= |h.segs| && (i < |h.segs| ==> t == SegEnd(h.segs[i])) && (forall j | 0 <= j < i :: t != SegEnd(h.segs[j])) && HeapOk(h, {})
    ensures h.segs != [] && (i < |h.segs| && h.segs[i].base <= h.top < SegEnd(h.segs[i]) <==> t == SegEnd(h.segs[0]))
    ensures i < |h.segs| && h.segs[i].base <= h.top < SegEnd(h.segs[i]) ==> i == 0
  {
    if i < |h.segs| && h.segs[i].base <= h.top < SegEnd(h.segs[i]) { TopInFirst(h, i); }
    hide CoreOk, BinsOk, LiveOk, SegOk, InSomeSegment;
    TopNumbers(h, {}, h.top + h.topsize);
  }

  lemma GrownAtEnd(h: Heap, h1: Heap, h': Heap, t: int, size: nat, p: int)
    requires h.segs != [] && t == SegEnd(h.segs[0]) && p == h1.top == h.top && h'.segs == h1.segs
    requires h1.segs == h.segs[0 := Segment(h.segs[0].base, h.segs[0].size + size)]
    ensures Grown(h, h', t, size, p)
  {}

  lemma GrownInFront(h: Heap, h': Heap, t: int, size: nat, j: nat)
    requires j < |h.segs| && t + size == h.segs[j].base && t != SegEnd(h.segs[0])
    requires h'.segs == h.segs[j := Segment(t, size + h.segs[j].size)]
    ensures Grown(h, h', t, size, t)
  {}

  lemma GrownAnew(h: Heap, h1: Heap, h': Heap, t: int, size: nat, p: int)
    requires h.segs != [] && t != SegEnd(h.segs[0]) && (forall j | 0 <= j < |h.segs| :: t + size != h.segs[j].base)
    requires h1.segs == [Segment(t, size)] + h.segs && h'.segs == h1.segs && p == h1.top == t
    ensures Grown(h, h', t, size, p)
  {}

  lemma SegsStay(h: Heap, h': Heap, nb: nat, mm: int, p: int)
    requires !NothingFits(h, nb) && h'.segs == h.segs
    ensures SegsAfter(h, h', nb, mm, p)
  {}

  lemma SegsUntouched(h: Heap, h': Heap, nb: nat, mm: int, p: int)
    requires !NoneBinned(h, nb) && h'.segs == h.segs
    ensures SegsAfter(h, h', nb, mm, p)
  {}

  lemma SegsToo(h: Heap, h1: Heap, h': Heap, nb: nat, mm: int, p: int)
    requires SegsAfter(h, h1, nb, mm, p) && h'.segs == h1.segs
    ensures SegsAfter(h, h', nb, mm, p)
  {
    hide NothingFits, MmapSize;
  }

  lemma SegsGrow(h: Heap, h': Heap, nb: nat, mm: int, p: int)
    requires NothingFits(h, nb) && Grown(h, h', mm, MmapSize(nb), p)
    ensures SegsAfter(h, h', nb, mm, p)
  {
    hide NothingFits, Grown;
  }

  /** Only what no bin and not the designated victim has room for is taken from top. */
  lemma FromTop(h: Heap, nb: nat, p: int)
    requires Placed(h, nb, p) && p == h.top && nb > 0 && HeapOk(h, {})
    ensures h.dvsize < nb && NoneBinned(h, nb)
  {
    hide HeapOk, HasSmall, NoneBinned;
    TopInNoBin(h);
    TopNumbers(h, {}, h.top + h.topsize);
    if h.dvsize > 0 {
      DvIs(h, {});
    }
  }

  /** At most a minimal chunk is wasted. */
  lemma LittleWaste(h: Heap, h': Heap, nb: nat, p: int)
    requires Remains(h, h', nb, p)
    ensures p in h'.cs && nb <= h'.cs[p].size < nb + MIN_CHUNK_SIZE
  {}

  lemma BinSizeIs(h: Heap, p: int)
    requires InBin(h, p) && HeapOk(h, {})
    ensures p in h.cs && BinSize(h, p) == h.cs[p].size
  {
    hide HeapOk;
    InBins(h, {}, p);
  }

  /** The chunk was in a bin. */
  lemma FromBin(h: Heap, h': Heap, nb: nat, p: int, size: nat)
    requires InBin(h, p) && HeapOk(h, {}) && p in h.cs && size == h.cs[p].size
    requires h'.top == h.top && h'.topsize == h.topsize && TakenOf(h'.cs, p, nb, size)
    requires if nb < MIN_LARGE_SIZE && size - nb >= MIN_CHUNK_SIZE then h'.dv == p + nb && h'.dvsize == size - nb
             else h'.dv == h.dv && h'.dvsize == h.dvsize
    ensures Remains(h, h', nb, p)
  {
    hide HeapOk;
    BinSizeIs(h, p);
  }

  lemma DvInNoBin(h: Heap)
    requires h.dvsize > 0 && HeapOk(h, {})
    ensures !InBin(h, h.dv)
  {
    hide HeapOk;
    DvUnbinned(h, {});
  }

  lemma TopInNoBin(h: Heap)
    requires HeapOk(h, {})
    ensures !InBin(h, h.top)
  {
    hide HeapOk;
    TopNumbers(h, {}, h.top + h.topsize);
    if InBin(h, h.top) {
      InBins(h, {}, h.top);
    }
  }

  // ---- Small bins ---------------------------------------------------------------------------------

  /** The bits of smallmap say which sizes there are. */
  lemma SizesMarked(sb: SmallBins.SmallBins, h: Heap, i: nat)
    requires sb.Valid() && h.small == sb.Chunks() && i < SmallBins.NSMALLBINS && |sb.smallmap| == SmallBins.NSMALLBINS
    ensures sb.smallmap[i] <==> HasSmall(h, 8 * i)
  {
    hide SmallBins.ListsOk;
    SmallBins.MarkedIff(sb.L(), i);
    if sb.smallmap[i] {
      var x :| x in sb.node && x > 0 && sb.node[x].size == 8 * i;
      assert x in h.small && h.small[x] == 8 * i;
    }
  }

  lemma SmallSizes(sb: SmallBins.SmallBins, h: Heap, q: int)
    requires sb.Valid() && h.small == sb.Chunks() && q in h.small
    ensures h.small[q] % 8 == 0 && h.small[q] < 256
  {
    assert SmallBins.InItsList(sb.L(), q);
  }

  /** No bin from idx up to i is marked, so that a chunk of bin i is a smallest one. */
  lemma FirstBin(sb: SmallBins.SmallBins, h: Heap, nb: nat, i: nat, p: int)
    requires sb.Valid() && h.small == sb.Chunks() && i < SmallBins.NSMALLBINS && |sb.smallmap| == SmallBins.NSMALLBINS
    requires nb % 8 == 0 && nb / 8 <= i && forall j | nb / 8 <= j < i :: !sb.smallmap[j]
    requires p in h.small && h.small[p] == 8 * i && HeapOk(h, {})
    ensures Smallest(h, nb, p)
  {
    hide SmallBins.ListsOk, HeapOk;
    forall q | InBin(h, q) && BinSize(h, q) >= nb ensures BinSize(h, p) <= BinSize(h, q) {
      if q in h.small {
        SmallSizes(sb, h, q);
        SizesMarked(sb, h, h.small[q] / 8);
        assert HasSmall(h, h.small[q]);
      } else {
        BinnedLarge(h, q);
      }
    }
  }

  lemma BinnedLarge(h: Heap, q: int)
    requires q in h.large && HeapOk(h, {})
    ensures h.large[q] >= MIN_LARGE_SIZE && q !in h.small
  {
    hide CoreOk, TopOk, SegsOk, LiveOk;
  }

  /** No small chunk fits, so that a smallest one of the trees is a smallest one. */
  lemma FirstTree(h: Heap, nb: nat, p: int)
    requires nb < MIN_LARGE_SIZE && (forall q <- h.small :: h.small[q] < nb)
    requires p in h.large && (forall q <- h.large :: h.large[p] <= h.large[q]) && HeapOk(h, {})
    ensures Smallest(h, nb, p) && !NoneBinned(h, nb)
  {
    hide HeapOk;
    BinnedLarge(h, p);
  }

  lemma SmallestFits(h: Heap, nb: nat, p: int)
    requires Smallest(h, nb, p)
    ensures !NoneBinned(h, nb)
  {}

  lemma PlacedExact(h: Heap, nb: nat, p: int)
    requires nb < MIN_LARGE_SIZE && p in h.small
    requires if HasSmall(h, nb) then h.small[p] == nb else h.small[p] == nb + 8
    ensures Placed(h, nb, p) && !NoneBinned(h, nb)
  {
    assert HasSmall(h, h.small[p]);
  }

  lemma PlacedSmallest(h: Heap, nb: nat, p: int)
    requires nb < MIN_LARGE_SIZE && !HasSmall(h, nb) && !HasSmall(h, nb + 8) && h.dvsize < nb && Smallest(h, nb, p)
    ensures Placed(h, nb, p) && !NoneBinned(h, nb)
  {
    SmallestFits(h, nb, p);
    hide Smallest, HasSmall, NoneBinned;
  }

  /** No bin from nb up to i is marked, so that the chunks of bin i are smallest ones. */
  lemma NextBin(sb: SmallBins.SmallBins, h: Heap, nb: nat, i: nat)
    requires sb.Valid() && h.small == sb.Chunks() && i < SmallBins.NSMALLBINS && |sb.smallmap| == SmallBins.NSMALLBINS
    requires nb % 8 == 0 && nb / 8 <= i && (forall j | nb / 8 <= j < i :: !sb.smallmap[j]) && HeapOk(h, {})
    ensures forall p <- h.small | h.small[p] == 8 * i :: Smallest(h, nb, p)
  {
    hide SmallBins.ListsOk, HeapOk, Smallest;
    forall p <- h.small | h.small[p] == 8 * i ensures Smallest(h, nb, p) {
      FirstBin(sb, h, nb, i, p);
    }
  }

  lemma NothingAtAll(sb: SmallBins.SmallBins, h: Heap, nb: nat)
    requires sb.Valid() && h.small == sb.Chunks() && nb % 8 == 0 && nb <= 256 && |sb.smallmap| == SmallBins.NSMALLBINS
    requires forall j | nb / 8 <= j < SmallBins.NSMALLBINS :: !sb.smallmap[j]
    ensures h.large == map[] ==> NoneBinned(h, nb)
    ensures forall q <- h.small :: h.small[q] < nb
  {
    hide SmallBins.ListsOk;
    NothingSmall(sb, nb);
  }

  /** Beyond the small bins there is none of the next size. */
  lemma NoSuchSmall(h: Heap, s: nat)
    requires s >= MIN_LARGE_SIZE && HeapOk(h, {})
    ensures !HasSmall(h, s)
  {
    hide CoreOk, TopOk, SegsOk, LiveOk;
  }

  /** For large requests the small bins do not matter. */
  lemma NoneBetter(h: Heap, nb: nat)
    requires nb >= MIN_LARGE_SIZE && !(exists q :: BetterThanDv(h, nb, q)) && HeapOk(h, {})
    requires h.dvsize >= nb || forall q <- h.large :: h.large[q] < nb
    ensures h.dvsize >= nb || NoneBinned(h, nb)
  {
    hide CoreOk, TopOk, SegsOk, LiveOk;
  }

  /** Neither bins nor trees have what is better than the designated victim, if that is large enough. */
  ghost predicate NothingBetter(h: Heap, nb: nat) {
    && (nb < MIN_LARGE_SIZE ==> !HasSmall(h, nb) && !HasSmall(h, nb + 8))
    && (nb >= MIN_LARGE_SIZE ==> !exists q :: BetterThanDv(h, nb, q))
    && (h.dvsize >= nb || NoneBinned(h, nb))
  }

  lemma NothingBetterFits(h: Heap, nb: nat)
    requires NothingBetter(h, nb)
    ensures h.dvsize >= nb || NoneBinned(h, nb)
  {}

  lemma NoTreeFits(h: Heap, nb: nat)
    requires nb >= MIN_LARGE_SIZE && (h.large == map[] || nb == SIZE_T_RANGE - 1) && HeapOk(h, {})
    ensures NothingBetter(h, nb)
  {
    hide HeapOk;
    Bounds(h);
    NoneBetter(h, nb);
  }

  lemma PlacedTree(h: Heap, nb: nat, p: int)
    requires nb >= MIN_LARGE_SIZE && BetterThanDv(h, nb, p)
    ensures Placed(h, nb, p) && !NoneBinned(h, nb)
  {}

  lemma PlacedDv(h: Heap, nb: nat, p: int)
    requires NothingBetter(h, nb) && nb <= h.dvsize && p == h.dv
    ensures Placed(h, nb, p)
  {
    hide BetterThanDv, HasSmall, NoneBinned;
  }

  lemma PlacedTop(h: Heap, h': Heap, nb: nat, p: int)
    requires NothingBetter(h, nb) && h.dvsize < nb < h.topsize && p == h.top && HeapOk(h, {})
    requires h'.dv == h.dv && h'.dvsize == h.dvsize && h'.top == p + nb && h'.topsize == h.topsize - nb && p in h'.cs && h'.cs[p].size == nb
    ensures Placed(h, nb, p) && Remains(h, h', nb, p)
  {
    hide BetterThanDv, HasSmall, NoneBinned, HeapOk, InBin;
    TopInNoBin(h);
  }

  lemma PlacedNew(h: Heap, h': Heap, nb: nat, p: int)
    requires NothingBetter(h, nb) && h.dvsize < nb && h.topsize <= nb && HeapOk(h, {}) && p in h'.cs && h'.cs[p].size == nb
    requires !InBin(h, p)
    ensures Placed(h, nb, p) && Remains(h, h', nb, p)
  {
    hide BetterThanDv, HasSmall, NoneBinned, HeapOk, InBin;
  }

  lemma RegionInNoBin(h: Heap, t: int, size: nat)
    requires size > 0 && Disjoint(h.mem, h.segs, t, size) && HeapOk(h, {})
    ensures !InBin(h, t)
  {
    hide HeapOk, Disjoint;
    ChunksOutsideRegion(h, {}, t, size);
    if InBin(h, t) {
      InBins(h, {}, t);
    }
  }

  /** The trees decide where a large request goes if they have a better fit than the designated victim. */
  lemma TreeDecides(h: Heap, nb: nat, v: int, rsize: nat)
    requires MIN_LARGE_SIZE <= nb < SIZE_T_RANGE && HeapOk(h, {})
    requires v == 0 ==> forall y <- h.large :: h.large[y] < nb
    requires v != 0 ==> v in h.large && h.large[v] >= nb && rsize == h.large[v] - nb
    requires v != 0 ==> forall y <- h.large | h.large[y] >= nb :: h.large[v] <= h.large[y]
    ensures (exists p :: BetterThanDv(h, nb, p))
      <==> v != 0 && rsize < (if h.dvsize >= nb then h.dvsize - nb else h.dvsize + SIZE_T_RANGE - nb)
    ensures (exists p :: BetterThanDv(h, nb, p)) ==> v != 0 && BetterThanDv(h, nb, v)
    ensures v != 0 ==> v in h.cs && h.cs[v].size == h.large[v] == rsize + nb
    ensures !(exists p :: BetterThanDv(h, nb, p)) ==> h.dvsize >= nb || forall y <- h.large :: h.large[y] < nb
  {
    LargeFit(h, {}, nb, v, rsize);
    hide HeapOk;
    if v != 0 && (h.dvsize < nb || h.large[v] < h.dvsize) {
      assert BetterThanDv(h, nb, v);
    }
  }

  // ---- Blocks of the allocator itself -----------------------------------------------------------------

  /** The first state, with the chunk that holds it. */
  lemma StateOwned(t: int, h: Heap)
    requires h.cs == CreatedChunks(t, DEFAULT_GRANULARITY) && h.live == map[t := STATE_CHUNK_SIZE - 8]
    requires HeapOk(h.(live := map[]), {})
    ensures HeapOk(h, {}) && AllOwned(h, {})
  {
    hide *;
    var h0 := h.(live := map[]);
    CreatedUsed(t, h);
    Hand(h0, t, STATE_CHUNK_SIZE - 8);
    OneLive(h0, h, t, STATE_CHUNK_SIZE - 8);
  }

  lemma Created(t: int, h: Heap)
    requires t > 0 && t % 8 == 0 && t + DEFAULT_GRANULARITY < ADDRESS_LIMIT
    requires h.cs == CreatedChunks(t, DEFAULT_GRANULARITY) && h.segs == [Segment(t, DEFAULT_GRANULARITY)]
    requires h.small == map[] && h.large == map[] && h.dvsize == 0 && h.live == map[t := STATE_CHUNK_SIZE - 8]
    requires h.top == t + STATE_CHUNK_SIZE && h.topsize == DEFAULT_GRANULARITY - STATE_CHUNK_SIZE - TOP_FOOT_SIZE
    requires h.mem == Region(t, DEFAULT_GRANULARITY)[t + 8 := STATE_CHUNK_SIZE + 3][h.top + 8 := h.topsize + 1]
                        [h.top + h.topsize + 8 := TOP_FOOT_SIZE]
    ensures HeapOk(h, {}) && AllOwned(h, {})
  {
    hide *;
    CreatedOk(t, h.(live := map[]));
    StateOwned(t, h);
  }

  lemma OneLive(h0: Heap, h: Heap, t: int, n: nat)
    requires h0 == h.(live := map[]) && h.live == map[t := n]
    ensures h0.(live := h0.live[t := n]) == h
  {}

  lemma CreatedUsed(t: int, h: Heap)
    requires h.cs == CreatedChunks(t, DEFAULT_GRANULARITY) && h.live == map[t := STATE_CHUNK_SIZE - 8]
    ensures AllOwned(h, {}) && t in h.cs && h.cs[t].kind.Used? && h.cs[t].size == STATE_CHUNK_SIZE
  {}

  predicate OwnGrows(own: map<int, nat>, own': map<int, nat>, n: int) {
    own.Keys <= own'.Keys && (forall q <- own :: own'[q] == own[q]) && |own'| == |own| + n
  }

  lemma OneMore(own: map<int, nat>, c: int, n: nat)
    requires c !in own
    ensures OwnGrows(own, own[c := n], 1) && own[c := n].Keys == own.Keys + {c}
  {
    assert own[c := n].Keys == own.Keys + {c};
  }

  /** Blocks of the program and of the allocator. */
  function Together(live: map<int, nat>, own: map<int, nat>): map<int, nat> {
    live + own
  }

  predicate Separate(live: map<int, nat>, own: map<int, nat>) {
    live.Keys !! own.Keys
  }

  lemma Either(live: map<int, nat>, own: map<int, nat>, p: int)
    ensures p in Together(live, own) <==> p in live || p in own
    ensures p in live && Separate(live, own) ==> p !in own && Together(live, own)[p] == live[p]
  {}

  lemma OnlyOwn(t: int, n: nat)
    ensures Together(map[], map[t := n]) == map[t := n] && Separate(map[], map[t := n])
  {}

  lemma OneMoreInAll(live: map<int, nat>, own: map<int, nat>, c: int, n: nat)
    requires c !in Together(live, own) && Separate(live, own)
    ensures Together(live, own[c := n]) == Together(live, own)[c := n] && Separate(live, own[c := n])
    ensures c !in own
  {}

  lemma BothAdd(live: map<int, nat>, own: map<int, nat>, p: int, n: nat)
    requires p !in own && Separate(live, own)
    ensures Together(live[p := n], own) == Together(live, own)[p := n] && Separate(live[p := n], own)
    ensures Together(live, own)[p := n].Keys == Together(live, own).Keys + {p}
  {}

  lemma BothRemove(live: map<int, nat>, own: map<int, nat>, p: int)
    requires p in live && Separate(live, own)
    ensures Together(live - {p}, own) == Together(live, own) - {p} && Separate(live - {p}, own)
    ensures Together(live - {p}, own).Keys == Together(live, own).Keys - {p}
  {}

  lemma CarvedThen(h: Heap, h1: Heap, h2: Heap, p: int, nb: nat)
    requires Kept(h, h1, h.live.Keys) && h.live.Keys <= h1.live.Keys && Carved(h1, h2, p, nb)
    ensures Carved(h, h2, p, nb)
  {
    hide Kept;
    KeptLess(h1, h2, h1.live.Keys, h.live.Keys);
    KeptThen(h, h1, h2, h.live.Keys);
  }

  lemma OwnSame(own: map<int, nat>)
    ensures OwnGrows(own, own, 0) && own.Keys - own.Keys == {}
  {}

  lemma UsedBoth(cs: Chunks, cs1: Chunks, cs2: Chunks, more: set<int>, p: int)
    requires SameUsed(cs, cs1, more) && SameUsed(cs1, cs2, {p})
    ensures SameUsed(cs, cs2, {p} + more)
  {}

  /** The record of the segment that was in use so far. */
  lemma RecordOwned(h: Heap, h2: Heap, h3: Heap, live: map<int, nat>, own: map<int, nat>, c: int, n: nat)
    requires h2.live == Together(live, own) && h.live == h2.live && Separate(live, own) && c !in h2.live
    requires c in h2.cs && h2.cs[c].kind.Used? && n + 8 <= h2.cs[c].size && h3 == h2.(live := Together(live, own[c := n]))
    requires Kept(h, h2, h.live.Keys) && HeapOk(h2, {})
    ensures HeapOk(h3, {}) && Kept(h, h3, h.live.Keys) && Separate(live, own[c := n]) && h.live.Keys <= h3.live.Keys
    ensures OwnGrows(own, own[c := n], 1) && own[c := n].Keys - own.Keys == {c}
  {
    hide HeapOk, Kept, Together, Separate, OwnGrows;
    OneMoreInAll(live, own, c, n);
    OneMore(own, c, n);
    Hand(h2, c, n);
    KeptAround(h, h, h2, h3, h.live.Keys);
  }

  /** A new block is handed to the program. */
  lemma Handed(h: Heap, h1: Heap, h2: Heap, p: int, nb: nat, more: set<int>)
    requires Carved(h, h1, p, nb) && SameUsed(h.cs, h1.cs, {p} + more) && AllOwned(h, {}) && more <= h1.live.Keys
    requires h2 == h1.(live := h2.live) && h2.live.Keys == h1.live.Keys + {p} && Remains(h, h1, nb, p)
    ensures AllOwned(h2, {}) && Kept(h, h2, h.live.Keys) && Remains(h, h2, nb, p)
  {
    hide Kept, Remains, SameUsed;
    StillOwned(h, h1, {}, {p} + more);
    KeptAround(h, h, h1, h2, h.live.Keys);
    RemainsToo(h, h1, h2, nb, p);
  }

  /** The block at p, of n bytes, is new. */
  ghost predicate GotBlock(h: Heap, h': Heap, p: int, n: nat) {
    p !in h.live && p in h'.live && h'.live[p] == n && h.live.Keys <= h'.live.Keys
  }

  /** The same, for blocks of the program and of the allocator. */
  lemma HandedOut(h: Heap, h1: Heap, h2: Heap, p: int, nb: nat, n: nat, live: map<int, nat>, own: map<int, nat>, own': map<int, nat>)
    requires h1.live == Together(live, own') && Separate(live, own') && n + 8 <= nb && h2 == h1.(live := Together(live[p := n], own'))
    requires Carved(h, h1, p, nb) && SameUsed(h.cs, h1.cs, {p} + (own'.Keys - own.Keys)) && AllOwned(h, {}) && Remains(h, h1, nb, p)
    requires HeapOk(h1, {})
    ensures HeapOk(h2, {}) && AllOwned(h2, {}) && Kept(h, h2, h.live.Keys) && Remains(h, h2, nb, p)
    ensures Separate(live[p := n], own') && p !in live && GotBlock(h, h2, p, n)
  {
    hide HeapOk, Kept, Remains, SameUsed, AllOwned;
    BothAdd(live, own', p, n);
    Hand(h1, p, n);
    Handed(h, h1, h2, p, nb, own'.Keys - own.Keys);
  }

  lemma RemainsToo(h: Heap, h1: Heap, h2: Heap, nb: nat, p: int)
    requires Remains(h, h1, nb, p) && h2 == h1.(live := h2.live)
    ensures Remains(h, h2, nb, p)
  {}

  lemma GrewBy(own: map<int, nat>, own': map<int, nat>, n: int)
    requires OwnGrows(own, own', n)
    ensures |own'| == |own| + n
  {}

  // ---- Requests ---------------------------------------------------------------------------------------

  ghost function SizeOf(h: Heap, p: int): nat {
    if p in h.cs then h.cs[p].size else 0
  }

  /** A block of nb bytes can have the place of the one at p. */
  ghost predicate InPlace(h: Heap, p: int, nb: nat) {
    SizeOf(h, p) >= nb || (p + SizeOf(h, p) == h.top && SizeOf(h, p) + h.topsize > nb)
  }

  /** In its place a block gets nb bytes, or keeps its size with less than a minimal chunk too much; the
      rest is given back. Moved it may have a little more, and all of the old block is given back. */
  ghost predicate Resized(h: Heap, h': Heap, p: int, r: int, nb: nat) {
    if r != p then
      nb <= SizeOf(h', r) < nb + MIN_CHUNK_SIZE && GivenBack(h'.cs, p, p + SizeOf(h, p))
    else if nb <= SizeOf(h, p) < nb + MIN_CHUNK_SIZE then
      SizeOf(h', p) == SizeOf(h, p)
    else
      SizeOf(h', p) == nb && (SizeOf(h, p) > nb ==> GivenBack(h'.cs, p + nb, p + SizeOf(h, p)))
  }

  /** Cut at p + nb, and the rest freed. */
  lemma ShrunkOwned(h: Heap, h1: Heap, h2: Heap, p: int, nb: nat, nsize: nat)
    requires p in h.live && p in h.cs && h.cs[p].size >= nb + MIN_CHUNK_SIZE && h1.live == h.live[p := nsize] && h2.live == h1.live
    requires p in h1.cs && h1.cs[p].size == nb && p + nb in h1.cs && h1.cs[p + nb].size == h.cs[p].size - nb
    requires AllOwned(h, {}) && SameUsed(h.cs, h1.cs, {p, p + nb}) && SameUsed(h1.cs, h2.cs, {}) && Kept(h1, h2, h1.live.Keys)
    requires GivenBack(h2.cs, p + nb, p + h.cs[p].size) && HeapOk(h2, {})
    ensures AllOwned(h2, {}) && Resized(h, h2, p, p, nb)
  {
    hide HeapOk, SameUsed, GivenBack;
    StillOwned(h, h1, {}, {p, p + nb});
    assert AllOwned(h1, {p + nb});
    FreedOwned(h1, h2, p + nb);
  }

  lemma SameSize(h: Heap, h': Heap, p: int, nb: nat, nsize: nat)
    requires p in h.live && p in h.cs && nb <= h.cs[p].size < nb + MIN_CHUNK_SIZE && h' == h.(live := h.live[p := nsize])
    requires AllOwned(h, {})
    ensures AllOwned(h', {}) && Resized(h, h', p, p, nb)
  {}

  lemma Extended(h: Heap, h': Heap, p: int, nb: nat, nsize: nat)
    requires p in h.live && p in h.cs && p + h.cs[p].size == h.top && h.cs[p].size < nb < h.cs[p].size + h.topsize
    requires h.top + h.topsize in h.cs && h'.cs == Put2(h.cs, p, p + nb, h.top + h.topsize, Used, Top) && h'.live == h.live[p := nsize]
    requires AllOwned(h, {})
    ensures AllOwned(h', {}) && Resized(h, h', p, p, nb)
  {
    Put2Used(h.cs, p, p + nb, h.top + h.topsize, Used, Top);
    StillOwned(h, h', {}, {p});
  }

  lemma ExtendAll(h: Heap, h': Heap, p: int, nb: nat, nsize: nat, live: map<int, nat>, own: map<int, nat>)
    requires h.live == Together(live, own) && Separate(live, own) && p in live && p in h.cs && p + h.cs[p].size == h.top
    requires h.cs[p].size < nb < h.cs[p].size + h.topsize && nb >= nsize + 8 && nb % 8 == 0 && AllOwned(h, {})
    requires p + 8 in h.mem && p + nb + 8 in h.mem && h.top + h.topsize in h.cs
    requires h' == h.(mem := InuseWords(h.mem, p, nb)[p + nb + 8 := h.top + h.topsize - (p + nb) + 1], top := p + nb,
                      topsize := h.top + h.topsize - (p + nb), live := Together(live[p := nsize], own),
                      cs := Put2(h.cs, p, p + nb, h.top + h.topsize, Used, Top))
    requires HeapOk(h, {})
    ensures HeapOk(h', {}) && AllOwned(h', {}) && Separate(live[p := nsize], own) && Kept(h, h', h.live.Keys - {p})
    ensures PrefixMoved(h, h', p, p, nsize) && Resized(h, h', p, p, nb)
  {
    hide HeapOk, Together, Separate, Kept, PrefixMoved, Put2, InuseWords, AllOwned, Resized;
    Either(live, own, p);
    BothAdd(live, own, p, nsize);
    ExtendDone(h, p, nb, nsize, h');
    Extended(h, h', p, nb, nsize);
  }

  /** malloc gave r, the copy filled it, and then p was freed. */
  lemma MovedSize(h: Heap, h1: Heap, h2: Heap, h3: Heap, p: int, r: int, nb: nat)
    requires p in h.live && p in h.cs && p in h2.cs && h2.cs[p].size == h.cs[p].size && r != p && r in h2.live && h2.cs == h1.cs
    requires r in h1.cs && nb <= h1.cs[r].size < nb + MIN_CHUNK_SIZE && Kept(h2, h3, h2.live.Keys - {p})
    requires GivenBack(h3.cs, p, p + h2.cs[p].size)
    ensures Resized(h, h3, p, r, nb)
  {
    hide GivenBack;
  }

  lemma HeadBehind(mem: Memory, p: int, s: nat, mem': Memory, n: int)
    requires p + 8 in mem && p + s + 8 in mem && n + 8 in mem && mem' == InuseWords(mem, p, s)
    ensures n + 8 in mem' && p + s + 8 in mem'
  {}

  /** The program gives up the block at p. */
  lemma NobodyNow(h: Heap, h1: Heap, p: int)
    requires AllOwned(h, {}) && h1 == h.(live := h1.live) && h1.live.Keys == h.live.Keys - {p}
    ensures AllOwned(h1, {p})
  {}

  /** The block at p was given up, and then freed. */
  lemma Freed(h: Heap, h1: Heap, h2: Heap, p: int)
    requires p in h.live && p in h.cs && h.cs[p].size > 0 && h1 == h.(live := h1.live) && h1.live.Keys == h.live.Keys - {p}
    requires AllOwned(h, {}) && SameUsed(h1.cs, h2.cs, {}) && h2.live == h1.live && GivenBack(h2.cs, p, p + h.cs[p].size)
    requires Kept(h1, h2, h1.live.Keys) && VictimStays(h1, h2) && HeapOk(h2, {})
    ensures AllOwned(h2, {}) && Kept(h, h2, h.live.Keys - {p}) && SameUsed(h.cs, h2.cs, {}) && VictimStays(h, h2)
  {
    hide HeapOk, SameUsed, GivenBack, Kept;
    NobodyNow(h, h1, p);
    FreedOwned(h1, h2, p);
    KeptAround(h, h1, h2, h2, h1.live.Keys);
  }

  /** A store changes neither chunks nor blocks. */
  lemma StoreOwned(h: Heap, h': Heap, nobody: set<int>)
    requires AllOwned(h, nobody) && h' == h.(mem := h'.mem)
    ensures AllOwned(h', nobody)
  {}

  /** Nobody's chunk is free now. */
  lemma FreedOwned(h: Heap, h': Heap, p: int)
    requires AllOwned(h, {p}) && SameUsed(h.cs, h'.cs, {}) && h'.live == h.live && p in h.cs && h.cs[p].size > 0
    requires GivenBack(h'.cs, p, p + h.cs[p].size) && HeapOk(h', {})
    ensures AllOwned(h', {})
  {
    hide HeapOk;
    GivenUnused(h', {}, p, p + h.cs[p].size);
  }

  // ---- What the program sees of it ------------------------------------------------------------------------

  /** The heap without the blocks of the allocator. */
  lemma UsersOk(h: Heap, live: map<int, nat>, own: map<int, nat>)
    requires h.live == Together(live, own) && Separate(live, own) && HeapOk(h, {})
    ensures HeapOk(h.(live := live), {}) && live.Keys <= h.live.Keys
  {
    hide *;
    HeapParts(h, {});
    var h' := h.(live := live);
    UsersLive(h, h', live, own);
    SameButLive(h, h');
    HeapWhole(h', {});
  }

  lemma UsersLive(h: Heap, h': Heap, live: map<int, nat>, own: map<int, nat>)
    requires h.live == Together(live, own) && Separate(live, own) && LiveOk(h) && h' == h.(live := live)
    ensures LiveOk(h') && live.Keys <= h.live.Keys
  {}

  /** A request for nb bytes that nothing but the system can serve; ptr is the block to resize, or null. */
  ghost predicate Hopeless(h: Heap, ptr: int, nb: nat) {
    NothingFits(h, nb) && (ptr != 0 ==> !InPlace(h, ptr, nb))
  }

  lemma UsersKept(h: Heap, h': Heap, l: map<int, nat>, l': map<int, nat>, blocks: set<int>, fewer: set<int>)
    requires Kept(h, h', blocks) && fewer <= blocks
    ensures Kept(h.(live := l), h'.(live := l'), fewer)
  {}

  lemma UsersStore(h: Heap, h': Heap, live: map<int, nat>, own: map<int, nat>, known: map<int, map<int, int>>, p: int, k: nat, v: int)
    requires h.live == Together(live, own) && Separate(live, own) && BlocksHold(h.mem, live, known) && known.Keys == live.Keys
    requires p in live && k < live[p] && h' == h.(mem := h.mem[p + 16 + k := v]) && Kept(h, h', h.live.Keys - {p}) && HeapOk(h, {})
    ensures var known' := Learned(known, Request.Store(p, k, v), 0); known'.Keys == live.Keys && BlocksHold(h'.mem, live, known')
  {
    hide HeapOk, Kept, BlocksHold, Together;
    UsersOk(h, live, own);
    UsersKept(h, h', live, live, h.live.Keys - {p}, live.Keys - {p});
    LearnStore(h.(live := live), h'.(live := live), known, p, k, v);
  }

  lemma UsersFree(h: Heap, h': Heap, live: map<int, nat>, own: map<int, nat>, known: map<int, map<int, int>>, p: int)
    requires h.live == Together(live, own) && Separate(live, own) && BlocksHold(h.mem, live, known) && known.Keys == live.Keys
    requires Kept(h, h', h.live.Keys - {p}) && HeapOk(h, {})
    ensures var known', live' := Learned(known, Alloc(p, 0), 0), live - {p}; known'.Keys == live'.Keys && BlocksHold(h'.mem, live', known')
  {
    hide HeapOk, Kept, BlocksHold, Together;
    UsersOk(h, live, own);
    UsersKept(h, h', live, live - {p}, h.live.Keys - {p}, live.Keys - {p});
    LearnFree(h.(live := live), h'.(live := live - {p}), known, p);
  }

  lemma UsersMalloc(h: Heap, h': Heap, live: map<int, nat>, own: map<int, nat>, known: map<int, map<int, int>>, r: int, nsize: nat)
    requires h.live == Together(live, own) && Separate(live, own) && BlocksHold(h.mem, live, known) && known.Keys == live.Keys
    requires r !in live && nsize > 0 && r != 0 && Kept(h, h', h.live.Keys) && HeapOk(h, {})
    ensures var known', live' := Learned(known, Alloc(0, nsize), r), live[r := nsize];
      known'.Keys == live'.Keys && BlocksHold(h'.mem, live', known') && Served(live, Alloc(0, nsize), r) == live'
  {
    hide HeapOk, Kept, BlocksHold, Together;
    UsersOk(h, live, own);
    NoNull(h);
    UsersKept(h, h', live, live[r := nsize], h.live.Keys, live.Keys);
    LearnMalloc(h.(live := live), h'.(live := live[r := nsize]), known, r, nsize);
  }

  lemma UsersRealloc(h: Heap, h': Heap, live: map<int, nat>, own: map<int, nat>, known: map<int, map<int, int>>, p: int, r: int, nsize: nat)
    requires h.live == Together(live, own) && Separate(live, own) && BlocksHold(h.mem, live, known) && known.Keys == live.Keys
    requires p in live && nsize > 0 && r != 0 && (r == p || r !in live)
    requires Kept(h, h', h.live.Keys - {p}) && PrefixMoved(h, h', p, r, nsize) && HeapOk(h, {})
    ensures var known', live' := Learned(known, Alloc(p, nsize), r), (live - {p})[r := nsize];
      known'.Keys == live'.Keys && BlocksHold(h'.mem, live', known')
  {
    hide HeapOk, Kept, BlocksHold, Together;
    UsersOk(h, live, own);
    var live' := (live - {p})[r := nsize];
    UsersKept(h, h', live, live', h.live.Keys - {p}, live.Keys - {p});
    LearnRealloc(h.(live := live), h'.(live := live'), known, p, r, nsize);
  }
}
