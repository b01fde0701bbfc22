/** Where the link words of binned chunks lie in memory: inside of their own free chunks, and nowhere
    near what anybody else uses. */
module LinkWords {
  import opened Core
  import opened Heap
  import opened Requests
  import opened Trie

  /** The link words of a free chunk: fd and bk, and those of a tree node in a large one. */
  ghost predicate LinkWord(h: Heap, x: int, a: int)
    requires x in h.cs
  {
    x + 16 <= a < x + (if h.cs[x].size < MIN_LARGE_SIZE then 32 else 64)
  }

  /** A link word is mapped, is neither the head nor the foot of its chunk, and is not in the reach of any
      other chunk: from its start to its foot, or to the end of its payload. */
  lemma LinkApart(h: Heap, loose: set<int>, x: int, a: int)
    requires HeapOk(h, loose) && FreeAt(h, x) && LinkWord(h, x, a)
    ensures a in h.mem && x + 16 <= a < x + h.cs[x].size
    ensures forall q <- h.cs | q != x :: !(q <= a < q + h.cs[q].size + 8)
    ensures forall p <- h.live :: p in h.cs && !InPayload(h, p, a)
  {
    hide *;
    HeapParts(h, loose);
    LinkInside(h, x, a);
    forall q <- h.cs | q != x ensures !(q <= a < q + h.cs[q].size + 8) {
      OutOfReach(h, x, a, q);
    }
    forall p <- h.live ensures p in h.cs && !InPayload(h, p, a) {
      NotPayload(h, x, a, p);
    }
  }

  lemma LinkInside(h: Heap, x: int, a: int)
    requires CoreOk(h.mem, h.cs) && FreeAt(h, x) && LinkWord(h, x, a)
    ensures a in h.mem && x in h.cs && x + 16 <= a < x + h.cs[x].size
  {
    assert ChunkOk(h.mem, h.cs, x);
  }

  lemma OutOfReach(h: Heap, x: int, a: int, q: int)
    requires CoreOk(h.mem, h.cs) && x in h.cs && x + 16 <= a < x + h.cs[x].size && q in h.cs && q != x
    ensures !(q <= a < q + h.cs[q].size + 8)
  {
    ApartChunks(h.cs, q, x);
  }

  lemma NotPayload(h: Heap, x: int, a: int, p: int)
    requires LiveOk(h) && p in h.live && FreeAt(h, x) && forall q <- h.cs | q != x :: !(q <= a < q + h.cs[q].size + 8)
    ensures p in h.cs && !InPayload(h, p, a)
  {}

  lemma ApartChunks(cs: Chunks, q: int, x: int)
    requires Apart(cs) && q in cs && x in cs && q != x
    ensures q + cs[q].size <= x || x + cs[x].size <= q
  {}

  /** All records describe free chunks. */
  ghost predicate InFree(h: Heap, node: map<int, TChunk>) {
    forall x <- node | x > 0 :: FreeAt(h, x)
  }

  /** The records that differ describe chunks that are free before and after. */
  ghost predicate WritesInFree(h: Heap, h': Heap, node: map<int, TChunk>, node': map<int, TChunk>) {
    forall x: int | x > 0 && Written(node, node', x) :: FreeAt(h, x) && FreeAt(h', x)
  }

  ghost predicate Written(node: map<int, TChunk>, node': map<int, TChunk>, x: int) {
    (x in node || x in node') && !(x in node && x in node' && node[x] == node'[x])
  }

  lemma WritesAre(h: Heap, h': Heap, node: map<int, TChunk>, node': map<int, TChunk>)
    requires h'.cs == h.cs && InFree(h, node) && InFree(h', node')
    ensures WritesInFree(h, h', node, node')
  {}

  // ---- Memory with the link words in it -------------------------------------------------------

  /** Memory as the program has it: the records of binned chunks are words of their chunks. Headers
      (negative addresses) are in the state. */
  ghost function Overlay(mem: Memory, small: map<int, TChunk>, large: map<int, TChunk>): Memory {
    map a | a in mem :: WordOf(mem, small, large, a)
  }

  function WordOf(mem: Memory, small: map<int, TChunk>, large: map<int, TChunk>, a: int): int
    requires a in mem
  {
    if a > 16 && a - 16 in small then small[a - 16].fd
    else if a > 24 && a - 24 in small then small[a - 24].bk
    else if a > 16 && a - 16 in large then large[a - 16].fd
    else if a > 24 && a - 24 in large then large[a - 24].bk
    else if a > 32 && a - 32 in large then large[a - 32].child0
    else if a > 40 && a - 40 in large then large[a - 40].child1
    else if a > 48 && a - 48 in large then large[a - 48].parent
    else if a > 56 && a - 56 in large then large[a - 56].index
    else mem[a]
  }

  /** The records are those of the binned chunks. */
  ghost predicate RecordsOf(h: Heap, small: map<int, TChunk>, large: map<int, TChunk>) {
    && (forall x <- small | x > 0 :: x in h.small) && (forall x <- large | x > 0 :: x in h.large)
  }

  lemma RecordsSame(h: Heap, h': Heap, small: map<int, TChunk>, large: map<int, TChunk>)
    requires RecordsOf(h, small, large) && h'.small == h.small && h'.large == h.large
    ensures RecordsOf(h', small, large)
  {}

  lemma RecordsFree(h: Heap, loose: set<int>, small: map<int, TChunk>, large: map<int, TChunk>)
    requires BinsOk(h, loose) && RecordsOf(h, small, large)
    ensures InFree(h, small) && InFree(h, large)
  {}

  /** Outside of the link words of free chunks, there is what was there without them. */
  lemma NotOverlaid(h: Heap, loose: set<int>, small: map<int, TChunk>, large: map<int, TChunk>, a: int)
    requires HeapOk(h, loose) && RecordsOf(h, small, large) && a in h.mem
    requires forall x <- h.cs | h.cs[x].kind.Free? :: !LinkWord(h, x, a)
    ensures WordOf(h.mem, small, large, a) == h.mem[a]
  {
    hide HeapOk, LinkWord, RecordsOf, BinsOk;
    HeapParts(h, loose);
    SmallMissed(h, loose, small, large, a);
    LargeMissed(h, loose, small, large, a);
  }

  lemma SmallMissed(h: Heap, loose: set<int>, small: map<int, TChunk>, large: map<int, TChunk>, a: int)
    requires BinsOk(h, loose) && RecordsOf(h, small, large) && forall x <- h.cs | h.cs[x].kind.Free? :: !LinkWord(h, x, a)
    ensures forall x <- small | x > 0 :: a != x + 16 && a != x + 24
  {
    forall x <- small | x > 0 ensures a != x + 16 && a != x + 24 {
      assert x in h.cs && !LinkWord(h, x, a);
    }
  }

  lemma LargeMissed(h: Heap, loose: set<int>, small: map<int, TChunk>, large: map<int, TChunk>, a: int)
    requires BinsOk(h, loose) && RecordsOf(h, small, large) && forall x <- h.cs | h.cs[x].kind.Free? :: !LinkWord(h, x, a)
    ensures forall x <- large | x > 0 :: a < x + 16 || a >= x + 64
  {
    forall x <- large | x > 0 ensures a < x + 16 || a >= x + 64 {
      assert x in h.cs && !LinkWord(h, x, a);
    }
  }

  /** Payloads, and below heads and feet, read the same with the link words in memory. */
  lemma PayloadReads(h: Heap, loose: set<int>, small: map<int, TChunk>, large: map<int, TChunk>, p: int, a: int)
    requires HeapOk(h, loose) && RecordsOf(h, small, large) && p in h.live && p in h.cs && InPayload(h, p, a) && a in h.mem
    ensures WordOf(h.mem, small, large, a) == h.mem[a]
  {
    hide HeapOk, WordOf, RecordsOf;
    forall x <- h.cs | h.cs[x].kind.Free? ensures !LinkWord(h, x, a) {
      if LinkWord(h, x, a) {
        LinkApart(h, loose, x, a);
      }
    }
    NotOverlaid(h, loose, small, large, a);
  }

  lemma TagReads(h: Heap, loose: set<int>, small: map<int, TChunk>, large: map<int, TChunk>, p: int, a: int)
    requires HeapOk(h, loose) && RecordsOf(h, small, large) && p in h.cs && a in h.mem
    requires a == p + 8 || a == p + h.cs[p].size
    ensures WordOf(h.mem, small, large, a) == h.mem[a]
  {
    hide HeapOk, WordOf, RecordsOf, LinkWord;
    SizePositive(h, loose, p);
    forall x <- h.cs | h.cs[x].kind.Free? ensures !LinkWord(h, x, a) {
      if LinkWord(h, x, a) {
        LinkApart(h, loose, x, a);
      }
    }
    NotOverlaid(h, loose, small, large, a);
  }

  lemma SizePositive(h: Heap, loose: set<int>, p: int)
    requires HeapOk(h, loose) && p in h.cs
    ensures h.cs[p].size > 0
  {
    assert ChunkOk(h.mem, h.cs, p);
  }

  /** What is known of the contents of blocks is there with the link words in memory just as without. */
  lemma HoldInMemory(h: Heap, small: map<int, TChunk>, large: map<int, TChunk>, known: map<int, map<int, int>>)
    requires HeapOk(h, {}) && RecordsOf(h, small, large)
    ensures BlocksHold(Overlay(h.mem, small, large), h.live, known) <==> BlocksHold(h.mem, h.live, known)
  {
    hide HeapOk, WordOf, RecordsOf, BlockHolds;
    forall p <- known | p in h.live
      ensures BlockHolds(Overlay(h.mem, small, large), p, h.live[p], known[p]) <==> BlockHolds(h.mem, p, h.live[p], known[p])
    {
      HoldsInMemory(h, small, large, p, known[p]);
    }
  }

  lemma HoldsInMemory(h: Heap, small: map<int, TChunk>, large: map<int, TChunk>, p: int, m: map<int, int>)
    requires HeapOk(h, {}) && RecordsOf(h, small, large) && p in h.live
    ensures BlockHolds(Overlay(h.mem, small, large), p, h.live[p], m) <==> BlockHolds(h.mem, p, h.live[p], m)
  {
    hide HeapOk, WordOf, RecordsOf;
    LiveIs(h, p);
    forall k <- m | 0 <= k < h.live[p] && p + 16 + k in h.mem
      ensures WordOf(h.mem, small, large, p + 16 + k) == h.mem[p + 16 + k]
    {
      PayloadReads(h, {}, small, large, p, p + 16 + k);
    }
  }
}
