/** Boundary-tag chunks in one flat memory of words: the layout invariant of lj_alloc.c and what
    cutting and joining chunks does to it. Addresses and sizes are in bytes, size_t has 8 bytes,
    and memory maps the address of a word to the word. */
module Core {
  const MIN_CHUNK_SIZE: nat := 32
  const TOP_FOOT_SIZE: nat := 64
  const FENCE_SIZE: nat := 8

  /** What a chunk is. Tail is the fake chunk behind top; Fence are the fenceposts of a segment
      that top has left; End marks where the next head word would lie outside the segment. */
  datatype Kind = Used | Free | Top | Tail | Fence | End

  datatype Chunk = Chunk(size: nat, kind: Kind, pinuse: bool)

  type Memory = map<int, int>
  type Chunks = map<int, Chunk>

  predicate InUse(k: Kind) {
    k.Used? || k.Fence?
  }

  /** The head word: size, CINUSE_BIT and PINUSE_BIT; the fake chunk holds TOP_FOOT_SIZE. */
  function Head(c: Chunk): int {
    if c.kind.Tail? then TOP_FOOT_SIZE
    else c.size + (if InUse(c.kind) then 2 else 0) + (if c.pinuse then 1 else 0)
  }

  predicate MayFollow(k: Kind, n: Kind) {
    match k
    case Used => !n.Tail? && !n.End?
    case Free => InUse(n)
    case Top => n.Tail?
    case Tail => n.End?
    case Fence => n.Fence? || n.End?
    case End => false
  }

  predicate SizeOk(c: Chunk) {
    c.size % 8 == 0 &&
    match c.kind
    case Used => c.size >= MIN_CHUNK_SIZE
    case Free => c.size >= MIN_CHUNK_SIZE && c.pinuse
    case Top => c.size >= 8 && c.pinuse
    case Tail => c.size == TOP_FOOT_SIZE - 8 && !c.pinuse
    case Fence => c.size == FENCE_SIZE
    case End => c.size == 8
  }

  /** All words a chunk owns: its head, and up to and including the next chunk's prev_foot. */
  ghost predicate Mapped(mem: Memory, p: int, size: nat) {
    forall a | p + 8 <= a < p + size + 8 :: a in mem
  }

  /** Shape, successor and words of the chunk at p. */
  ghost predicate ChunkOk(mem: Memory, cs: Chunks, p: int)
    requires p in cs
  {
    var c, n := cs[p], p + cs[p].size;
    && p > 0 && p % 8 == 0 && SizeOk(c)
    && (!c.kind.End? ==>
         && n in cs && MayFollow(c.kind, cs[n].kind)
         && (!cs[n].kind.End? ==> cs[n].pinuse == InUse(c.kind))
         && Mapped(mem, p, c.size)
         && p + 8 in mem && mem[p + 8] == Head(c)
         && (c.kind.Free? ==> n in mem && mem[n] == c.size))
    && (c.kind.Used? && !c.pinuse ==> BackOk(mem, cs, p))
  }

  /** A clear PINUSE_BIT promises a free chunk in front, whose size is the prev_foot word. */
  ghost predicate BackOk(mem: Memory, cs: Chunks, p: int) {
    p in mem && var q := p - mem[p]; q in cs && cs[q].kind.Free? && cs[q].size == mem[p]
  }

  /** Chunks do not overlap. */
  ghost predicate Apart(cs: Chunks) {
    forall p, q | p in cs && q in cs && p < q :: p + cs[p].size <= q
  }

  ghost predicate CoreOk(mem: Memory, cs: Chunks) {
    Apart(cs) && forall p <- cs :: ChunkOk(mem, cs, p)
  }

  // ---- Replacing the chunks of a range ---------------------------------------------------

  /** cs' differs from cs only between lo and hi, and in the pinuse bit of hi. */
  ghost predicate SameOutside(cs: Chunks, cs': Chunks, lo: int, hi: int) {
    && lo in cs && hi in cs && lo < hi && lo in cs' && hi in cs'
    && (forall p | p < lo || p > hi :: p in cs' <==> p in cs)
    && (forall p | p in cs && (p < lo || p > hi) :: cs'[p] == cs[p])
    && cs'[hi].size == cs[hi].size && cs'[hi].kind == cs[hi].kind
  }

  /** Memory changed only in words owned by the range, and in the head word of hi. */
  ghost predicate SameWordsOutside(mem: Memory, mem': Memory, lo: int, hi: int) {
    && mem'.Keys == mem.Keys
    && forall a <- mem | a < lo + 8 || a > hi + 8 :: mem'[a] == mem[a]
  }

  lemma ApartOutside(cs: Chunks, cs': Chunks, lo: int, hi: int)
    requires Apart(cs) && SameOutside(cs, cs', lo, hi)
    requires forall p, q | p in cs' && q in cs' && lo <= p < q <= hi :: p + cs'[p].size <= q
    ensures Apart(cs')
  {
    forall p, q | p in cs' && q in cs' && p < q ensures p + cs'[p].size <= q {
      if p < lo {
        assert p + cs[p].size <= lo;
        if q > hi { assert p + cs[p].size <= q; }
      } else if p < hi {
        assert p + cs'[p].size <= hi;
      } else if p == hi {
        assert hi + cs[hi].size <= q;
      }
    }
  }

  /** The first chunk of the range may change as long as its predecessor does not mind. */
  ghost predicate SameToPredecessor(c: Chunk, d: Chunk) {
    && (c.kind.Used? || c.kind.Free? || c.kind.Top?) && (d.kind.Used? || d.kind.Free? || d.kind.Top?)
    && c.pinuse == d.pinuse && (!c.pinuse ==> c.kind.Used? && d.kind.Used?)
  }

  /** A chunk outside the range stays as it is. */
  lemma ChunkOutside(mem: Memory, cs: Chunks, mem': Memory, cs': Chunks, lo: int, hi: int, p: int)
    requires Apart(cs) && SameOutside(cs, cs', lo, hi) && SameWordsOutside(mem, mem', lo, hi)
    requires p in cs && (p < lo || p > hi) && ChunkOk(mem, cs, p) && ChunkOk(mem, cs, hi)
    requires SameToPredecessor(cs[lo], cs'[lo])
    ensures ChunkOk(mem', cs', p)
  {
    var c, n := cs[p], p + cs[p].size;
    if p < lo {
      assert n <= lo;
      if c.kind.Used? && !c.pinuse {
        var q := p - mem[p];
        assert q < lo;
      }
    } else {
      if c.kind.Used? && !c.pinuse {
        var q := p - mem[p];
        assert q + cs[q].size == p;
        assert q >= hi;
      }
    }
  }

  /** The chunk behind the range, whose predecessor is now at last. */
  lemma ChunkBehind(mem: Memory, cs: Chunks, mem': Memory, cs': Chunks, lo: int, hi: int, last: int)
    requires Apart(cs) && SameOutside(cs, cs', lo, hi) && SameWordsOutside(mem, mem', lo, hi)
    requires ChunkOk(mem, cs, hi) && !cs[hi].kind.End?
    requires last in cs' && last + cs'[last].size == hi && MayFollow(cs'[last].kind, cs'[hi].kind)
    requires cs'[hi].pinuse == InUse(cs'[last].kind) && SizeOk(cs'[hi])
    requires hi + 8 in mem' && mem'[hi + 8] == Head(cs'[hi])
    requires cs'[last].kind.Free? ==> hi in mem' && mem'[hi] == cs'[last].size
    ensures ChunkOk(mem', cs', hi)
  {}

  lemma {:induction false} RangeMapped(mem: Memory, cs: Chunks, lo: int, hi: int)
    requires CoreOk(mem, cs) && lo in cs && hi in cs && lo < hi
    requires forall p <- cs | lo <= p < hi :: !cs[p].kind.End?
    ensures Mapped(mem, lo, hi - lo)
    decreases hi - lo
  {
    assert ChunkOk(mem, cs, lo);
    var n := lo + cs[lo].size;
    if n < hi {
      RangeMapped(mem, cs, n, hi);
    }
  }

  /** What is known of a chunk of the new range at p, followed by the one at n. */
  ghost predicate NewChunkOk(mem: Memory, cs: Chunks, p: int, n: int) {
    && p in cs && n in cs && p > 0 && p % 8 == 0 && cs[p].size == n - p && SizeOk(cs[p])
    && !cs[p].kind.End? && !cs[n].kind.End?
    && MayFollow(cs[p].kind, cs[n].kind) && cs[n].pinuse == InUse(cs[p].kind)
    && Mapped(mem, p, n - p) && p + 8 in mem && mem[p + 8] == Head(cs[p])
    && (cs[p].kind.Free? ==> n in mem && mem[n] == n - p)
    && (cs[p].kind.Used? && !cs[p].pinuse ==> BackOk(mem, cs, p))
  }

  lemma NewChunk(mem: Memory, cs: Chunks, p: int, n: int)
    requires NewChunkOk(mem, cs, p, n)
    ensures ChunkOk(mem, cs, p)
  {}

  lemma BackKept(mem: Memory, cs: Chunks, mem': Memory, cs': Chunks, lo: int, hi: int)
    requires SameOutside(cs, cs', lo, hi) && SameWordsOutside(mem, mem', lo, hi)
    requires CoreOk(mem, cs) && (!cs[lo].pinuse ==> cs[lo].kind.Used?)
    ensures !cs[lo].pinuse ==> BackOk(mem', cs', lo)
  {
    if !cs[lo].pinuse {
      assert ChunkOk(mem, cs, lo);
      assert ChunkOk(mem, cs, lo - mem[lo]);
    }
  }

  /** The chunks from lo to hi replaced by others that fit together. */
  lemma Retile(mem: Memory, cs: Chunks, mem': Memory, cs': Chunks, lo: int, hi: int, last: int)
    requires CoreOk(mem, cs) && SameOutside(cs, cs', lo, hi) && SameWordsOutside(mem, mem', lo, hi)
    requires forall p, q | p in cs' && q in cs' && lo <= p < q <= hi :: p + cs'[p].size <= q
    requires forall p <- cs' | lo <= p < hi :: ChunkOk(mem', cs', p)
    requires SameToPredecessor(cs[lo], cs'[lo])
    requires last in cs' && NewChunkOk(mem', cs', last, hi) && SizeOk(cs'[hi])
    requires HeadAt(mem', hi, cs'[hi])
    ensures CoreOk(mem', cs')
  {
    ApartOutside(cs, cs', lo, hi);
    forall p <- cs' ensures ChunkOk(mem', cs', p) {
      assert ChunkOk(mem, cs, hi);
      if p == hi {
        ChunkBehind(mem, cs, mem', cs', lo, hi, last);
      } else if !(lo <= p < hi) {
        ChunkOutside(mem, cs, mem', cs', lo, hi, p);
      }
    }
  }

  function Put1(cs: Chunks, lo: int, hi: int, k: Kind): Chunks
    requires lo in cs && hi in cs
  {
    (map p <- cs | p < lo || p > hi :: cs[p])
    [lo := Chunk(if lo < hi then hi - lo else 0, k, cs[lo].pinuse)][hi := cs[hi].(pinuse := InUse(k))]
  }

  function Put2(cs: Chunks, lo: int, mid: int, hi: int, k: Kind, m: Kind): Chunks
    requires lo in cs && hi in cs && lo < mid < hi
  {
    Put1(cs, lo, hi, m)[lo := Chunk(mid - lo, k, cs[lo].pinuse)][mid := Chunk(hi - mid, m, InUse(k))]
  }

  ghost predicate RangeOk(cs: Chunks, lo: int, hi: int) {
    lo in cs && hi in cs && lo < hi && forall p <- cs | lo <= p <= hi :: !cs[p].kind.End?
  }

  lemma Put1Shape(cs: Chunks, lo: int, hi: int, k: Kind)
    requires RangeOk(cs, lo, hi)
    ensures var cs' := Put1(cs, lo, hi, k);
      && SameOutside(cs, cs', lo, hi) && (forall p <- cs' | lo <= p < hi :: p == lo)
      && cs'[lo] == Chunk(hi - lo, k, cs[lo].pinuse) && cs'[hi] == cs[hi].(pinuse := InUse(k))
  {}

  lemma Put2Shape(cs: Chunks, lo: int, mid: int, hi: int, k: Kind, m: Kind)
    requires RangeOk(cs, lo, hi) && lo < mid < hi
    ensures var cs' := Put2(cs, lo, mid, hi, k, m);
      && SameOutside(cs, cs', lo, hi) && mid in cs' && (forall p <- cs' | lo <= p < hi :: p == lo || p == mid)
      && cs'[lo] == Chunk(mid - lo, k, cs[lo].pinuse) && cs'[mid] == Chunk(hi - mid, m, InUse(k))
      && cs'[hi] == cs[hi].(pinuse := InUse(m))
  {}

  /** One chunk of kind k instead of all those from lo to hi: c there, and d behind. */
  lemma Put1Ok(mem: Memory, cs: Chunks, mem': Memory, lo: int, hi: int, k: Kind, c: Chunk, d: Chunk)
    requires CoreOk(mem, cs) && RangeOk(cs, lo, hi) && SameWordsOutside(mem, mem', lo, hi)
    requires c == Chunk(hi - lo, k, cs[lo].pinuse) && d == cs[hi].(pinuse := InUse(k))
    requires SameToPredecessor(cs[lo], c) && SizeOk(c) && SizeOk(d) && MayFollow(k, d.kind)
    requires HeadAt(mem', lo, c) && HeadAt(mem', hi, d)
    requires k.Free? ==> hi in mem' && mem'[hi] == hi - lo
    ensures CoreOk(mem', Put1(cs, lo, hi, k))
  {
    var cs' := Put1(cs, lo, hi, k);
    Put1Shape(cs, lo, hi, k);
    NewLo(mem, cs, mem', cs', lo, hi);
    Put1New(mem', cs', lo, hi, c, d);
    hide *;
    Retile(mem, cs, mem', cs', lo, hi, lo);
  }

  ghost predicate HeadAt(mem: Memory, p: int, c: Chunk) {
    p + 8 in mem && mem[p + 8] == Head(c)
  }

  lemma Put1New(mem: Memory, cs: Chunks, lo: int, hi: int, c: Chunk, d: Chunk)
    requires lo in cs && hi in cs && cs[lo] == c && cs[hi] == d && c.size == hi - lo && SizeOk(c) && SizeOk(d)
    requires !d.kind.End? && MayFollow(c.kind, d.kind) && d.pinuse == InUse(c.kind)
    requires lo > 0 && lo % 8 == 0 && Mapped(mem, lo, hi - lo) && HeadAt(mem, lo, c)
    requires c.kind.Free? ==> hi in mem && mem[hi] == hi - lo
    requires !c.pinuse ==> BackOk(mem, cs, lo)
    requires lo < hi && forall p <- cs | lo <= p < hi :: p == lo
    ensures NewChunkOk(mem, cs, lo, hi)
    ensures forall p <- cs | lo <= p < hi :: ChunkOk(mem, cs, p)
    ensures forall p, q | p in cs && q in cs && lo <= p < q <= hi :: p + cs[p].size <= q
  {}

  /** Where the new range begins. */
  lemma NewLo(mem: Memory, cs: Chunks, mem': Memory, cs': Chunks, lo: int, hi: int)
    requires CoreOk(mem, cs) && RangeOk(cs, lo, hi)
    requires SameOutside(cs, cs', lo, hi) && SameWordsOutside(mem, mem', lo, hi)
    requires cs[lo].pinuse == cs'[lo].pinuse && (!cs[lo].pinuse ==> cs[lo].kind.Used?)
    ensures lo > 0 && lo % 8 == 0 && Mapped(mem', lo, hi - lo) && !cs[hi].kind.End?
    ensures !cs[lo].pinuse ==> BackOk(mem', cs', lo)
  {
    RangeMapped(mem, cs, lo, hi);
    assert ChunkOk(mem, cs, lo);
    BackKept(mem, cs, mem', cs', lo, hi);
  }

  /** Chunks of kinds k and m, meeting at mid, instead of all those from lo to hi. */
  lemma Put2Ok(mem: Memory, cs: Chunks, mem': Memory, lo: int, mid: int, hi: int, k: Kind, m: Kind,
               c: Chunk, d: Chunk, e: Chunk)
    requires CoreOk(mem, cs) && RangeOk(cs, lo, hi) && SameWordsOutside(mem, mem', lo, hi)
    requires lo < mid < hi && k.Used? && !m.End?
    requires c == Chunk(mid - lo, k, cs[lo].pinuse) && d == Chunk(hi - mid, m, InUse(k))
    requires e == cs[hi].(pinuse := InUse(m))
    requires SameToPredecessor(cs[lo], c) && SizeOk(c) && SizeOk(d) && SizeOk(e)
    requires MayFollow(k, m) && MayFollow(m, e.kind)
    requires HeadAt(mem', lo, c) && HeadAt(mem', mid, d) && HeadAt(mem', hi, e)
    requires m.Free? ==> hi in mem' && mem'[hi] == hi - mid
    ensures CoreOk(mem', Put2(cs, lo, mid, hi, k, m))
  {
    var cs' := Put2(cs, lo, mid, hi, k, m);
    Put2Shape(cs, lo, mid, hi, k, m);
    NewLo(mem, cs, mem', cs', lo, hi);
    Put2New(mem', cs', lo, mid, hi, c, d, e);
    hide *;
    Retile(mem, cs, mem', cs', lo, hi, mid);
  }

  lemma Put2New(mem: Memory, cs: Chunks, lo: int, mid: int, hi: int, c: Chunk, d: Chunk, e: Chunk)
    requires lo < mid < hi && lo in cs && mid in cs && hi in cs
    requires cs[lo] == c && cs[mid] == d && cs[hi] == e && c.size == mid - lo && d.size == hi - mid
    requires SizeOk(c) && SizeOk(d) && SizeOk(e) && c.kind.Used? && !d.kind.End? && !e.kind.End?
    requires MayFollow(c.kind, d.kind) && d.pinuse == InUse(c.kind)
    requires MayFollow(d.kind, e.kind) && e.pinuse == InUse(d.kind)
    requires lo > 0 && lo % 8 == 0 && Mapped(mem, lo, hi - lo) && HeadAt(mem, lo, c) && HeadAt(mem, mid, d)
    requires d.kind.Free? ==> hi in mem && mem[hi] == hi - mid
    requires !c.pinuse ==> BackOk(mem, cs, lo)
    requires forall p <- cs | lo <= p < hi :: p == lo || p == mid
    ensures NewChunkOk(mem, cs, mid, hi)
    ensures forall p <- cs | lo <= p < hi :: ChunkOk(mem, cs, p)
    ensures forall p, q | p in cs && q in cs && lo <= p < q <= hi :: p + cs[p].size <= q
  {}
}
