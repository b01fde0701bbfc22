/** The allocator as the program sees it: malloc_state with its fields, changed in place by
    lj_alloc_malloc, lj_alloc_free and lj_alloc_realloc. Blocks are named by the address of their
    chunk, which is 16 below the address the user gets (chunk2mem). */
module Arena {
  import opened Core
  import opened Heap
  import opened Steps
  import opened Growth
  import opened TreeIndex
  import opened Coalesce
  import opened Requests
  import opened Accounts
  import opened LinkWords
  import SmallBins
  import TreeBins
  import Rings

  class Arena {
    var mem: Memory
    var dv: int
    var dvsize: nat
    var top: int
    var topsize: nat
    var segs: seq<Segment>
    var segnext: int           // the next word of the record in the state
    const sb: SmallBins.SmallBins
    const tb: TreeBins.TreeBins
    ghost var cs: Chunks
    ghost var live: map<int, nat>  // blocks of the program
    ghost var own: map<int, nat>   // blocks of the allocator: its state, and the records of segments

    ghost function H(): Heap
      reads this, sb, tb
    {
      Heap(mem, cs, dv, dvsize, top, topsize, segs, sb.Chunks(), tb.Chunks(), Together(live, own))
    }

    /** The invariant; the chunks in loose are free but in no bin for the moment. */
    ghost predicate Ok(loose: set<int>)
      reads this, sb, tb
    {
      sb.Valid() && tb.Valid() && HeapOk(H(), loose) && (dvsize == 0 ==> dv == 0) && Separate(live, own)
    }

    ghost predicate Valid()
      reads this, sb, tb
    {
      Ok({})
    }

    /** No memory is lost: every chunk in use is a block of the program, the state, or one record for each
        further segment; or one of those that are in nobody's hands for the moment. */
    ghost predicate Owned(nobody: set<int>)
      reads this, sb, tb
    {
      AllOwned(H(), nobody) && |own| == |segs|
    }

    /** Memory with the link words of binned chunks where the program has them. */
    ghost function View(): Memory
      reads this, sb, tb
    {
      Overlay(mem, sb.node, tb.node)
    }

    /** Link words are those of free chunks. */
    lemma LinksInFree(loose: set<int>)
      requires Ok(loose)
      ensures RecordsOf(H(), sb.node, tb.node) && InFree(H(), sb.node) && InFree(H(), tb.node)
    {
      hide HeapOk, SmallBins.SmallBins.Valid, SmallBins.SmallBins.Chunks, TreeBins.TreeBins.Valid, TreeBins.TreeBins.Chunks, Together, Separate, InFree, BinsOk, RecordsOf;
      HeapParts(H(), loose);
      RecordsAre();
      RecordsFree(H(), loose, sb.node, tb.node);
    }

    lemma RecordsAre()
      ensures RecordsOf(H(), sb.node, tb.node)
    {}

    /** lj_alloc_create, on the region the system hands out at t: the chunk that holds the state
        itself comes first. */
    constructor (t: int)
      requires t > 0 && t % 8 == 0 && t + DEFAULT_GRANULARITY < ADDRESS_LIMIT
      ensures Valid() && Owned({}) && live == map[] && fresh(sb) && fresh(tb)
      ensures segs == [Segment(t, DEFAULT_GRANULARITY)] && top == t + STATE_CHUNK_SIZE && dvsize == 0
    {
      hide HeapOk, SmallBins.SmallBins.Valid, SmallBins.SmallBins.Chunks, TreeBins.TreeBins.Valid, TreeBins.TreeBins.Chunks, Together, Separate, CreatedChunks, AllOwned, Region;
      var size := DEFAULT_GRANULARITY;
      var mn := t + STATE_CHUNK_SIZE;
      var rest := t + size - mn - TOP_FOOT_SIZE;
      mem := Region(t, size)[t + 8 := STATE_CHUNK_SIZE + 3][mn + 8 := rest + 1][mn + rest + 8 := TOP_FOOT_SIZE];
      dv, dvsize, top, topsize, segs, segnext := 0, 0, mn, rest, [Segment(t, size)], 0;
      sb := new SmallBins.SmallBins();
      tb := new TreeBins.TreeBins();
      cs, live, own := CreatedChunks(t, size), map[], map[t := STATE_CHUNK_SIZE - 8];
      new;
      OnlyOwn(t, STATE_CHUNK_SIZE - 8);
      Created(t, H());
    }

    // ---- Bins -----------------------------------------------------------------------------

    /** unlink_chunk */
    method UnlinkChunk(p: int, s: nat, ghost loose: set<int>)
      requires Ok(loose) && FreeAt(H(), p) && p !in loose && (dvsize > 0 ==> p != dv) && s == cs[p].size
      modifies sb, tb
      ensures Ok(loose + {p})
      ensures FreeAt(H(), p)
      ensures WritesInFree(old(H()), H(), old(sb.node), sb.node) && WritesInFree(old(H()), H(), old(tb.node), tb.node)
    {
      hide HeapOk, SmallBins.ListsOk, Rings.Valid, Together, Separate, WritesInFree, InFree, RecordsOf;
      ghost var h, small, large := H(), sb.node, tb.node;
      LinksInFree(loose);
      BinnedIs(h, loose, p);
      Unbin(h, loose, p, h.(small := h.small - {p}, large := h.large - {p}));
      assert p > 0 by { FreeNumbers(h, loose, p); }
      if s < MIN_LARGE_SIZE {
        sb.Unlink(p);
        assert p !in h.large;
        assert h.large - {p} == h.large;
      } else {
        tb.Unlink(p);
        assert h.small - {p} == h.small;
      }
      LinksInFree(loose + {p});
      WritesAre(h, H(), small, sb.node);
      WritesAre(h, H(), large, tb.node);
    }

    /** unlink_first_small_chunk */
    method UnlinkFirstChunk(i: nat) returns (p: int)
      requires Valid() && i < SmallBins.NSMALLBINS && |sb.smallmap| == SmallBins.NSMALLBINS && sb.smallmap[i]
      modifies sb
      ensures Ok({p}) && FreeAt(H(), p) && cs[p].size == 8 * i && old(p in H().small && H().small[p] == 8 * i)
      ensures WritesInFree(old(H()), H(), old(sb.node), sb.node)
    {
      hide HeapOk, SmallBins.SmallBins.Valid, SmallBins.SmallBins.Chunks, TreeBins.TreeBins.Valid, TreeBins.TreeBins.Chunks, Together, Separate, WritesInFree, InFree, RecordsOf;
      ghost var h, small := H(), sb.node;
      LinksInFree({});
      p := sb.UnlinkFirst(i);
      InBins(h, {}, p);
      BinnedIs(h, {}, p);
      NotThere(h.large, p);
      Unbin(h, {}, p, H());
      assert {} + {p} == {p};
      LinksInFree({p});
      WritesAre(h, H(), small, sb.node);
    }

    /** insert_chunk */
    method InsertChunk(p: int, s: nat, ghost loose: set<int>)
      requires Ok(loose) && p in loose && p in cs && s == cs[p].size
      modifies sb, tb
      ensures Ok(loose - {p})
      ensures WritesInFree(old(H()), H(), old(sb.node), sb.node) && WritesInFree(old(H()), H(), old(tb.node), tb.node)
    {
      hide HeapOk, SmallBins.ListsOk, Rings.Valid, Together, Separate, WritesInFree, InFree, RecordsOf;
      ghost var h, small, large := H(), sb.node, tb.node;
      LinksInFree(loose);
      FreeFacts(h, loose, p);
      FreeNumbers(h, loose, p);
      if s < MIN_LARGE_SIZE {
        Bin(h, loose, p, s, h.(small := h.small[p := s]));
        sb.Insert(p, s);
      } else {
        Bin(h, loose, p, s, h.(large := h.large[p := s]));
        tb.Insert(p, s);
      }
      LinksInFree(loose - {p});
      WritesAre(h, H(), small, sb.node);
      WritesAre(h, H(), large, tb.node);
    }

    /** replace_dv */
    method ReplaceDv(p: int, s: nat, ghost loose: set<int>)
      requires Ok(loose) && p in loose && p in cs && s == cs[p].size && dvsize < MIN_LARGE_SIZE
      modifies this`dv, this`dvsize, sb
      ensures Ok(loose - {p}) && dv == p && dvsize == s
      ensures WritesInFree(old(H()), H(), old(sb.node), sb.node)
    {
      hide HeapOk, SmallBins.ListsOk, Rings.Valid, Together, Separate, WritesInFree, InFree, RecordsOf;
      ghost var h, small := H(), sb.node;
      LinksInFree(loose);
      ghost var rest := loose;
      FreeFacts(h, loose, p);
      FreeNumbers(h, loose, p);
      if dvsize != 0 {
        LoosenDv(h, loose, h.(dvsize := 0));
        FreeNumbers(h, loose, dv);
        Bin(h.(dvsize := 0), loose + {dv}, dv, dvsize, h.(dvsize := 0, small := h.small[dv := dvsize]));
        DvUnbinned(h, loose);
        sb.Insert(dv, dvsize);
        assert loose + {dv} - {dv} == loose;
      }
      SetDv(h.(dvsize := 0, small := sb.Chunks()), loose, p, h.(dv := p, dvsize := s, small := sb.Chunks()));
      dvsize := s;
      dv := p;
      LinksInFree(loose - {p});
      WritesAre(h, H(), small, sb.node);
    }

    // ---- Cutting chunks ---------------------------------------------------------------------

    /** set_inuse_and_pinuse on a whole free chunk */
    method UseChunk(p: int, s: nat, ghost loose: set<int>)
      requires Ok(loose) && p in loose && p in cs && s == cs[p].size
      modifies this`mem, this`cs
      ensures Ok(loose - {p}) && Kept(old(H()), H(), old(H()).live.Keys) && p !in H().live && p > 0 && SameUsed(old(cs), cs, {p})
      ensures p in cs && cs[p] == Chunk(s, Used, true)
    {
      hide HeapOk, SmallBins.SmallBins.Valid, SmallBins.SmallBins.Chunks, TreeBins.TreeBins.Valid, TreeBins.TreeBins.Chunks, Together, Separate, Kept;
      ghost var h := H();
      var n := p + s;
      FreeFacts(h, loose, p);
      Positive(h, loose, p);
      Behind(h, loose, p, n);
      mem := mem[p + 8 := s + 3];
      mem := mem[n + 8 := WithPinuse(mem[n + 8])];
      cs := Put1(cs, p, n, Used);
      UseWhole(h, loose, p, n, H());
      Put1Used(h.cs, p, n, Used);
    }

    /** set_size_and_pinuse_of_inuse_chunk on the first nb bytes of a free chunk, and
        set_size_and_pinuse_of_free_chunk on the other rsize. */
    method SplitChunk(p: int, nb: nat, rsize: nat, ghost loose: set<int>)
      requires Ok(loose) && p in loose && p in cs && nb + rsize == cs[p].size
      requires nb % 8 == 0 && nb >= MIN_CHUNK_SIZE && rsize >= MIN_CHUNK_SIZE
      modifies this`mem, this`cs
      ensures Ok(loose - {p} + {p + nb}) && Kept(old(H()), H(), old(H()).live.Keys) && p !in H().live && p > 0 && SameUsed(old(cs), cs, {p})
      ensures p in cs && cs[p] == Chunk(nb, Used, true) && p + nb in cs && cs[p + nb] == Chunk(rsize, Kind.Free, true)
    {
      hide HeapOk, SmallBins.SmallBins.Valid, SmallBins.SmallBins.Chunks, TreeBins.TreeBins.Valid, TreeBins.TreeBins.Chunks, Together, Separate, Kept;
      ghost var h := H();
      ghost var n := p + nb + rsize;
      FreeFacts(h, loose, p);
      FreeNumbers(h, loose, p);
      Behind(h, loose, p, n);
      mem := mem[p + 8 := nb + 3];
      var r := p + nb;
      mem := mem[r + 8 := rsize + 1];
      mem := mem[r + rsize := rsize];
      cs := Put2(cs, p, r, n, Used, Kind.Free);
      UseFront(h, loose, p, r, n, H());
      Put2Used(h.cs, p, r, n, Used, Kind.Free);
    }

    /** The first nb bytes of top go into use. */
    method SplitTop(nb: nat) returns (p: int)
      requires Valid() && nb % 8 == 0 && nb >= MIN_CHUNK_SIZE && nb < topsize
      modifies this`mem, this`cs, this`top, this`topsize
      ensures Valid() && Carved(old(H()), H(), p, nb) && SameUsed(old(cs), cs, {p})
      ensures p == old(top) && top == p + nb && topsize == old(topsize) - nb && p in cs && cs[p].size == nb
    {
      hide HeapOk, SmallBins.SmallBins.Valid, SmallBins.SmallBins.Chunks, TreeBins.TreeBins.Valid, TreeBins.TreeBins.Chunks, Together, Separate, Kept;
      ghost var h := H();
      ghost var n := top + topsize;
      TopNumbers(h, {}, n);
      Positive(h, {}, top);
      var rsize := topsize - nb;
      topsize := rsize;
      p := top;
      var r := p + nb;
      top := r;
      mem := mem[r + 8 := rsize + 1];
      mem := mem[p + 8 := nb + 3];
      cs := Put2(cs, p, r, n, Used, Top);
      UseTopFront(h, {}, r, n, H());
      Put2Used(h.cs, p, r, n, Used, Top);
    }
  
    // ---- malloc -----------------------------------------------------------------------------

    /** tmalloc_small */
    method TmallocSmall(nb: nat) returns (v: int)
      requires Valid() && tb.Chunks() != map[] && nb % 8 == 0 && MIN_CHUNK_SIZE <= nb < MIN_LARGE_SIZE && dvsize < nb
      modifies this`mem, this`cs, this`dv, this`dvsize, sb, tb
      ensures Valid() && Carved(old(H()), H(), v, nb) && SameUsed(old(cs), cs, {v}) && Remains(old(H()), H(), nb, v)
      ensures old(v in H().large && forall p <- H().large :: H().large[v] <= H().large[p])
    {
      hide HeapOk, SmallBins.SmallBins.Valid, SmallBins.SmallBins.Chunks, TreeBins.TreeBins.Valid, Together, Separate, Kept, Remains;
      ghost var h := H();
      AnyTreeIs(tb);
      var rsize;
      v, rsize := tb.FindSmallest(nb);
      InBins(h, {}, v);
      UnlinkChunk(v, rsize + nb, {});
      assert {} + {v} == {v};
      ghost var h1 := H();
      if rsize < MIN_CHUNK_SIZE {
        UseChunk(v, rsize + nb, {v});
        assert {v} - {v} == {};
        KeptAround(h, h1, H(), H(), h.live.Keys);
      } else {
        SplitChunk(v, nb, rsize, {v});
        ghost var h2 := H();
        assert {v} - {v} + {v + nb} == {v + nb};
        ReplaceDv(v + nb, rsize, {v + nb});
        assert {v + nb} - {v + nb} == {};
        KeptAround(h, h1, h2, H(), h.live.Keys);
      }
      FromBin(h, H(), nb, v, rsize + nb);
    }

    /** tmalloc_large: null if no large chunk fits, or dv fits at least as tightly. */
    method TmallocLarge(nb: nat) returns (v: int)
      requires Valid() && nb % 8 == 0 && MIN_LARGE_SIZE <= nb < SIZE_T_RANGE
      modifies this`mem, this`cs, sb, tb
      ensures Valid()
      ensures v != 0 ==> Carved(old(H()), H(), v, nb) && SameUsed(old(cs), cs, {v}) && Remains(old(H()), H(), nb, v)
      ensures v == 0 ==> H() == old(H()) && (dvsize >= nb || forall p <- H().large :: H().large[p] < nb)
      ensures old(exists p :: BetterThanDv(H(), nb, p)) <==> v != 0
      ensures v != 0 ==> old(BetterThanDv(H(), nb, v))
    {
      hide HeapOk, SmallBins.SmallBins.Valid, SmallBins.SmallBins.Chunks, TreeBins.TreeBins.Valid, Together, Separate, Kept, BetterThanDv, Remains;
      ghost var h := H();
      var rsize;
      v, rsize := tb.FindBestFit(nb);
      TreeDecides(h, nb, v, rsize);
      if v != 0 && rsize < (if dvsize >= nb then dvsize - nb else dvsize + SIZE_T_RANGE - nb) {
        InBins(h, {}, v);
        UnlinkChunk(v, rsize + nb, {});
        assert {} + {v} == {v};
        ghost var h1 := H();
        if rsize < MIN_CHUNK_SIZE {
          UseChunk(v, rsize + nb, {v});
          assert {v} - {v} == {};
          KeptAround(h, h1, H(), H(), h.live.Keys);
        } else {
          SplitChunk(v, nb, rsize, {v});
          ghost var h2 := H();
          assert {v} - {v} + {v + nb} == {v + nb};
          InsertChunk(v + nb, rsize, {v + nb});
          assert {v + nb} - {v + nb} == {};
          KeptAround(h, h1, h2, H(), h.live.Keys);
        }
        FromBin(h, H(), nb, v, rsize + nb);
      } else {
        v := 0;
      }
    }

    /** The first part of lj_alloc_malloc for small requests: everything but dv and top. */
    method MallocSmall(nb: nat) returns (p: int)
      requires Valid() && nb % 8 == 0 && MIN_CHUNK_SIZE <= nb < MIN_LARGE_SIZE
      modifies this`mem, this`cs, this`dv, this`dvsize, sb, tb
      ensures Valid()
      ensures p != 0 ==> Carved(old(H()), H(), p, nb) && SameUsed(old(cs), cs, {p})
      ensures p != 0 ==> Placed(old(H()), nb, p) && Remains(old(H()), H(), nb, p) && old(!NoneBinned(H(), nb))
      ensures p == 0 ==> H() == old(H()) && !HasSmall(H(), nb) && !HasSmall(H(), nb + 8) && (dvsize >= nb || NoneBinned(H(), nb))
    {
      hide HeapOk, SmallBins.SmallBins.Valid, SmallBins.SmallBins.Chunks, TreeBins.TreeBins.Valid, TreeBins.TreeBins.Chunks, Together, Separate, Kept, Placed, Smallest, Remains, HasSmall, NoneBinned;
      ghost var h := H();
      var idx := nb / 8;
      SmallmapLength(sb);
      SizesMarked(sb, h, idx);
      if idx + 1 < SmallBins.NSMALLBINS { SizesMarked(sb, h, idx + 1); } else { NoSuchSmall(h, nb + 8); }
      if sb.smallmap[idx] || (idx + 1 < SmallBins.NSMALLBINS && sb.smallmap[idx + 1]) {
        var i := if sb.smallmap[idx] then idx else idx + 1;
        p := TakeSmall(i, nb, 8 * i);
        PlacedExact(h, nb, p);
      } else if nb > dvsize {
        var i := sb.NextMarked(idx);
        if i < SmallBins.NSMALLBINS {
          NextBin(sb, h, nb, i);
          p := TakeSmall(i, nb, nb);
          PlacedSmallest(h, nb, p);
        } else {
          NothingAtAll(sb, h, nb);
          var trees := tb.AnyTree();
          if trees {
            p := TmallocSmall(nb);
            FirstTree(h, nb, p);
            PlacedSmallest(h, nb, p);
          } else {
            p := 0;
          }
        }
      } else {
        p := 0;
      }
    }

    /** The first chunk of small bin i, of which `use` bytes go to the block: all of it, or the
        rest becomes the designated victim. */
    method TakeSmall(i: nat, nb: nat, use: nat) returns (p: int)
      requires Valid() && i < SmallBins.NSMALLBINS && |sb.smallmap| == SmallBins.NSMALLBINS && sb.smallmap[i]
      requires nb % 8 == 0 && MIN_CHUNK_SIZE <= nb <= 8 * i && ((use == nb && dvsize < nb) || (use == 8 * i && use - nb <= 8))
      modifies this`mem, this`cs, this`dv, this`dvsize, sb
      ensures Valid() && Carved(old(H()), H(), p, nb) && SameUsed(old(cs), cs, {p}) && Remains(old(H()), H(), nb, p)
      ensures old(p in H().small && H().small[p] == 8 * i)
    {
      hide HeapOk, SmallBins.SmallBins.Valid, SmallBins.SmallBins.Chunks, TreeBins.TreeBins.Valid, TreeBins.TreeBins.Chunks, Together, Separate, Kept, Remains;
      ghost var h := H();
      p := UnlinkFirstChunk(i);
      ghost var h1 := H();
      var rsize := 8 * i - use;
      if rsize < MIN_CHUNK_SIZE {
        UseChunk(p, 8 * i, {p});
        assert {p} - {p} == {};
        KeptAround(h, h1, H(), H(), h.live.Keys);
      } else {
        SplitChunk(p, nb, rsize, {p});
        ghost var h2 := H();
        assert {p} - {p} + {p + nb} == {p + nb};
        ReplaceDv(p + nb, rsize, {p + nb});
        assert {p + nb} - {p + nb} == {};
        KeptAround(h, h1, h2, H(), h.live.Keys);
      }
      FromBin(h, H(), nb, p, 8 * i);
    }

    /** Split or exhaust dv. */
    method TakeDv(nb: nat) returns (p: int)
      requires Valid() && nb % 8 == 0 && MIN_CHUNK_SIZE <= nb <= dvsize
      modifies this`mem, this`cs, this`dv, this`dvsize
      ensures Valid() && Carved(old(H()), H(), p, nb) && SameUsed(old(cs), cs, {p}) && Remains(old(H()), H(), nb, p)
      ensures p == old(dv)
    {
      hide HeapOk, SmallBins.SmallBins.Valid, SmallBins.SmallBins.Chunks, TreeBins.TreeBins.Valid, TreeBins.TreeBins.Chunks, Together, Separate, Kept, InBin;
      ghost var h := H();
      p := dv;
      var dvs := dvsize;
      var rsize := dvs - nb;
      LoosenDv(h, {}, h.(dvsize := 0, dv := 0));
      assert {} + {p} == {p};
      dv, dvsize := 0, 0;
      ghost var h1 := H();
      if rsize >= MIN_CHUNK_SIZE {
        SplitChunk(p, nb, rsize, {p});
        var r := p + nb;
        assert {p} - {p} + {r} == {r};
        ghost var h2 := H();
        SetDv(H(), {r}, r, H().(dv := r, dvsize := rsize));
        assert {r} - {r} == {};
        dv, dvsize := r, rsize;
        KeptAround(h, h1, h2, H(), h.live.Keys);
      } else {
        UseChunk(p, dvs, {p});
        assert {p} - {p} == {};
        KeptAround(h, h1, H(), H(), h.live.Keys);
      }
      DvInNoBin(h);
    }

    // ---- System allocation --------------------------------------------------------------------

    /** segment_holds(segs[i], top), and the loop over the segment list that looks for one that
        the region continues. */
    method FindSegment(mm: int, atBase: bool) returns (i: nat)
      ensures i <= |segs| && (i < |segs| ==> mm == if atBase then segs[i].base else SegEnd(segs[i]))
      ensures forall j | 0 <= j < i :: mm != if atBase then segs[j].base else SegEnd(segs[j])
    {
      i := 0;
      while i < |segs| && mm != (if atBase then segs[i].base else SegEnd(segs[i]))
        invariant i <= |segs|
        invariant forall j | 0 <= j < i :: mm != if atBase then segs[j].base else SegEnd(segs[j])
      {
        i := i + 1;
      }
    }

    /** alloc_sys; mm is what CALL_MMAP answers. Direct mapping of large chunks fails here. */
    method AllocSys(nb: nat, mm: int) returns (p: int)
      requires Valid() && MmapAnswer(mem, segs, MmapSize(nb), mm) && MIN_CHUNK_SIZE <= nb < SIZE_T_RANGE
      requires nb % 8 == 0 || nb == SIZE_T_RANGE - 1
      modifies this, sb, tb
      ensures Valid()
      ensures p != 0 ==> Carved(old(H()), H(), p, nb) && p in cs && cs[p].size == nb && !InBin(old(H()), p)
      ensures p != 0 ==> Grown(old(H()), H(), mm, MmapSize(nb), p)
      ensures live == old(live) && OwnGrows(old(own), own, |segs| - |old(segs)|)
      ensures SameUsed(old(cs), cs, {p} + (own.Keys - old(own).Keys))
      ensures p == 0 <==> mm == CMFAIL || MmapSize(nb) <= nb
      ensures p == 0 ==> H() == old(H())
    {
      hide HeapOk, SmallBins.SmallBins.Valid, SmallBins.SmallBins.Chunks, TreeBins.TreeBins.Valid, TreeBins.TreeBins.Chunks, Together, Separate, Kept, SameUsed, Carved, OwnGrows, InBin, Grown;
      ghost var h := H();
      OwnSame(own);
      p := 0;
      var tsize := MmapSize(nb);
      if tsize > nb && mm != CMFAIL {
        MmapSizeFits(nb);
        TopInNoBin(h);
        RegionInNoBin(h, mm, tsize);
        var i := FindSegment(mm, false);
        EndFound(h, mm, i);
        if i < |segs| && segs[i].base <= top < SegEnd(segs[i]) {
          AppendRegion(mm, tsize);
        } else {
          var j := FindSegment(mm + tsize, true);
          if j < |segs| {
            p := PrependAlloc(j, mm, tsize, nb);
            CarvedPositive(h, H(), p, nb);
            assert {p} + {} == {p};
            GrownInFront(h, H(), mm, tsize, j);
            return;
          }
          AddRegion(mm, tsize);
        }
        ghost var h1 := H();
        p := SplitTop(nb);
        CarvedPositive(h1, H(), p, nb);
        CarvedThen(h, h1, H(), p, nb);
        UsedBoth(h.cs, h1.cs, cs, own.Keys - old(own).Keys, p);
        if mm == SegEnd(h.segs[0]) {
          GrownAtEnd(h, h1, H(), mm, tsize, p);
        } else {
          GrownAnew(h, h1, H(), mm, tsize, p);
        }
      } else {
        SameUsedMore(cs, {p} + {});
      }
    }

    method AppendRegion(t: int, size: nat)
      requires Valid() && segs != [] && t == SegEnd(segs[0]) && size > TOP_FOOT_SIZE && size % 8 == 0
      requires t > 0 && t % 8 == 0 && t + size < ADDRESS_LIMIT && Disjoint(mem, segs, t, size)
      modifies this`mem, this`cs, this`segs, this`topsize
      ensures Valid() && top == old(top) && topsize == old(topsize) + size && Kept(old(H()), H(), old(H()).live.Keys)
      ensures segs == old(segs)[0 := Segment(old(segs)[0].base, old(segs)[0].size + size)] && SameUsed(old(cs), cs, {})
    {
      hide HeapOk, SmallBins.SmallBins.Valid, SmallBins.SmallBins.Chunks, TreeBins.TreeBins.Valid, TreeBins.TreeBins.Chunks, Together, Separate, Kept, Disjoint, AppendChunks, Region;
      ghost var h := H();
      TopEnd(h, {}, t);
      mem := mem + Region(t, size);
      segs := segs[0 := segs[0].(size := segs[0].size + size)];
      topsize := topsize + size;
      mem := mem[top + 8 := topsize + 1];
      mem := mem[top + topsize + 8 := TOP_FOOT_SIZE];
      cs := AppendChunks(cs, top, t, t + size);
      AppendedIs(h, t, size, H());
      Append(h, t, size, H());
      AppendUsed(h.cs, top, t, t + size);
    }

    /** add_segment */
    method AddRegion(t: int, size: nat)
      requires Valid() && size > TOP_FOOT_SIZE && size % 8 == 0
      requires t > 0 && t % 8 == 0 && t + size < ADDRESS_LIMIT && Disjoint(mem, segs, t, size)
      modifies this`mem, this`cs, this`segs, this`segnext, this`top, this`topsize, this`own, sb, tb
      ensures Valid() && top == t && topsize == size - TOP_FOOT_SIZE && Kept(old(H()), H(), old(H()).live.Keys)
      ensures segs == [Segment(t, size)] + old(segs) && OwnGrows(old(own), own, 1) && SameUsed(old(cs), cs, own.Keys - old(own).Keys)
      ensures old(H()).live.Keys <= H().live.Keys
    {
      hide HeapOk, SmallBins.SmallBins.Valid, SmallBins.SmallBins.Chunks, TreeBins.TreeBins.Valid, TreeBins.TreeBins.Chunks, Together, Separate, Kept, Disjoint, AddedWords, AddedChunks, FenceWords, Region, SameUsed, OwnGrows, AtEnd, AlignOffset;
      ghost var h := H();
      SomeSegment(h);
      var oldTop, oldEnd := top, SegEnd(segs[0]);
      TopEnd(h, {}, oldEnd);
      var rawsp := oldEnd - (SEGMENT_CHUNK_SIZE + 32 + 7);
      var asp := rawsp + AlignOffset(rawsp + 16);
      var csp := if asp < oldTop + MIN_CHUNK_SIZE then oldTop else asp;
      RecordPlaced(h, oldEnd, asp, csp);
      ghost var record := [segs[0].base, segs[0].size, segnext];
      MoveTop(t, size, csp, oldEnd);
      cs := AddedChunks(cs, oldTop, csp, oldEnd, t, size);
      RegionAdded(h, t, size, csp, oldEnd, record, H());
      if csp != oldTop {
        ghost var h1 := H();
        InsertChunk(oldTop, csp - oldTop, {oldTop});
        assert {oldTop} - {oldTop} == {};
        KeptAround(h, h, h1, H(), h.live.Keys);
      }
      ghost var h2 := H();
      AddedUsed(h.cs, oldTop, csp, oldEnd, t, size);
      own := own[csp := SEGMENT_CHUNK_SIZE - 8];
      RecordOwned(h, h2, H(), live, old(own), csp, SEGMENT_CHUNK_SIZE - 8);
    }

    /** The stores of add_segment: the new top, the record of the old segment, fenceposts, and the
        rest of the old top. */
    method MoveTop(t: int, size: nat, csp: int, oldEnd: int)
      requires segs != [] && size > TOP_FOOT_SIZE && csp % 8 == 0 && oldEnd % 8 == 0 && csp + 48 <= oldEnd && top <= csp
      modifies this`mem, this`segs, this`segnext, this`top, this`topsize
      ensures top == t && topsize == size - TOP_FOOT_SIZE && segs == [Segment(t, size)] + old(segs) && segnext == csp + 16
      ensures mem == AddedWords(old(mem), old(top), csp, oldEnd, t, size, [old(segs)[0].base, old(segs)[0].size, old(segnext)])
    {
      hide Region, FenceWords;
      var oldTop := top;
      RecordOldSegment(t, size, csp);
      WriteFences(csp + SEGMENT_CHUNK_SIZE, oldEnd);
      if csp != oldTop {
        NotFence(csp + 8, csp + SEGMENT_CHUNK_SIZE + 8, oldEnd);
        mem := mem[csp + 8 := WithoutPinuse(mem[csp + 8])];
        mem := mem[oldTop + 8 := csp - oldTop + 1];
        mem := mem[csp := csp - oldTop];
      }
    }

    method RecordOldSegment(t: int, size: nat, csp: int)
      requires segs != [] && size > TOP_FOOT_SIZE && csp % 8 == 0
      modifies this`mem, this`segs, this`segnext, this`top, this`topsize
      ensures top == t && topsize == size - TOP_FOOT_SIZE && segs == [Segment(t, size)] + old(segs) && segnext == csp + 16
      ensures mem == (old(mem) + Region(t, size))[t + 8 := size - TOP_FOOT_SIZE + 1][t + size - TOP_FOOT_SIZE + 8 := TOP_FOOT_SIZE]
                     [csp + 8 := SEGMENT_CHUNK_SIZE + 3][csp + 16 := old(segs)[0].base][csp + 24 := old(segs)[0].size]
                     [csp + 32 := old(segnext)]
      ensures csp + 8 in mem && mem[csp + 8] == SEGMENT_CHUNK_SIZE + 3
    {
      hide Region;
      mem := mem + Region(t, size);
      top := t;
      topsize := size - TOP_FOOT_SIZE;
      mem := mem[top + 8 := topsize + 1];
      mem := mem[top + topsize + 8 := TOP_FOOT_SIZE];
      mem := mem[csp + 8 := SEGMENT_CHUNK_SIZE + 3];
      mem := mem[csp + 16 := segs[0].base][csp + 24 := segs[0].size][csp + 32 := segnext];
      segs := [Segment(t, size)] + segs;
      segnext := csp + 16;
    }

    /** The fencepost loop. */
    method WriteFences(first: int, oldEnd: int)
      requires first % 8 == 0 && oldEnd % 8 == 0 && first + 16 <= oldEnd
      modifies this`mem
      ensures mem == old(mem) + FenceWords(first + 8, oldEnd)
    {
      var p := first;
      mem := mem[p + 8 := FENCEPOST_HEAD];
      FenceStep(old(mem), first + 8, first + 8);
      while p + 16 < oldEnd
        invariant p % 8 == 0 && first <= p && p + 16 <= oldEnd
        invariant mem == old(mem) + FenceWords(first + 8, p + 16)
        decreases oldEnd - p
      {
        FenceStep(old(mem), first + 8, p + 16);
        p := p + 8;
        mem := mem[p + 8 := FENCEPOST_HEAD];
      }
    }

    /** prepend_alloc */
    method PrependAlloc(i: nat, t: int, size: nat, nb: nat) returns (p: int)
      requires Valid() && i < |segs| && t + size == segs[i].base && nb + MIN_CHUNK_SIZE <= size && size % 8 == 0
      requires nb % 8 == 0 && MIN_CHUNK_SIZE <= nb && t > 0 && t % 8 == 0 && Disjoint(mem, segs, t, size)
      modifies this, sb, tb
      ensures Valid() && Carved(old(H()), H(), p, nb) && SameUsed(old(cs), cs, {p}) && p in cs && cs[p].size == nb && p == t
      ensures segs == old(segs)[i := Segment(t, size + old(segs)[i].size)] && live == old(live) && own == old(own)
    {
      hide HeapOk, SmallBins.SmallBins.Valid, SmallBins.SmallBins.Chunks, TreeBins.TreeBins.Valid, TreeBins.TreeBins.Chunks, Together, Separate, Kept, Disjoint, Prepended, Region;
      ghost var h := H();
      p := t;
      var b := segs[i].base;
      SegBase(h, i);
      HeadRead(h, {}, b);
      var q := p + nb;
      var qsize := size - nb;
      if b == top {
        IntoTop(i, t, size, nb);
      } else if b == dv {
        IntoDv(i, t, size, nb);
      } else {
        var hi := b;
        ghost var loose := {};
        if !Cinuse(mem[b + 8]) {
          var nsize := Chunksize(mem[b + 8]);
          UnlinkChunk(b, nsize, {});
          hi := b + nsize;
          qsize := qsize + nsize;
          loose := {b};
          assert {} + {b} == {b};
        }
        ghost var h1 := H();
        IntoFree(i, t, size, nb, hi, loose);
        ghost var h2 := H();
        InsertChunk(q, qsize, {q});
        assert {q} - {q} == {};
        KeptAround(h, h1, h2, H(), h.live.Keys);
      }
    }

    /** The new block takes the front of the region, and the rest goes to the top chunk behind. */
    method IntoTop(i: nat, t: int, size: nat, nb: nat)
      requires Valid() && i < |segs| && t + size == segs[i].base && nb + MIN_CHUNK_SIZE <= size && size % 8 == 0
      requires nb % 8 == 0 && MIN_CHUNK_SIZE <= nb && t > 0 && t % 8 == 0 && Disjoint(mem, segs, t, size)
      requires segs[i].base == top
      modifies this`mem, this`cs, this`segs, this`top, this`topsize
      ensures Valid() && Carved(old(H()), H(), t, nb) && SameUsed(old(cs), cs, {t}) && t in cs && cs[t].size == nb
      ensures segs == old(segs)[i := Segment(t, size + old(segs)[i].size)]
    {
      hide HeapOk, SmallBins.SmallBins.Valid, SmallBins.SmallBins.Chunks, TreeBins.TreeBins.Valid, TreeBins.TreeBins.Chunks, Together, Separate, Kept, Disjoint, Prepended, PrependChunks, Region;
      ghost var h := H();
      ghost var hi := top + topsize;
      TopNumbers(h, {}, hi);
      PrependReady(h, {}, i, hi);
      segs := segs[i := Segment(t, size + segs[i].size)];
      mem := (mem + Region(t, size))[t + 8 := nb + 3];
      var q := t + nb;
      topsize := topsize + (size - nb);
      top := q;
      mem := mem[q + 8 := topsize + 1];
      cs := PrependChunks(cs, t, nb, t + size, hi, Top);
      PrependedIs(h, i, t, size, nb, hi, Top, H());
      Prepend(h, {}, i, t, size, nb, hi, Top, H());
      assert LooseThen({}, t + size, t + nb, Top) == {};
      PrependUsed(h.cs, t, nb, t + size, hi, Top);
    }

    method IntoDv(i: nat, t: int, size: nat, nb: nat)
      requires Valid() && i < |segs| && t + size == segs[i].base && nb + MIN_CHUNK_SIZE <= size && size % 8 == 0
      requires nb % 8 == 0 && MIN_CHUNK_SIZE <= nb && t > 0 && t % 8 == 0 && Disjoint(mem, segs, t, size)
      requires segs[i].base == dv
      modifies this`mem, this`cs, this`segs, this`dv, this`dvsize
      ensures Valid() && Carved(old(H()), H(), t, nb) && SameUsed(old(cs), cs, {t}) && t in cs && cs[t].size == nb
      ensures segs == old(segs)[i := Segment(t, size + old(segs)[i].size)]
    {
      hide HeapOk, SmallBins.SmallBins.Valid, SmallBins.SmallBins.Chunks, TreeBins.TreeBins.Valid, TreeBins.TreeBins.Chunks, Together, Separate, Kept, Disjoint, Prepended, PrependChunks, Region, WithoutPinuse;
      ghost var h := H();
      ghost var hi := dv + dvsize;
      ghost var h1 := h.(dv := 0, dvsize := 0);
      SegBase(h, i);
      IntoDvReady(h, i, h1, hi);
      segs := segs[i := Segment(t, size + segs[i].size)];
      mem := (mem + Region(t, size))[t + 8 := nb + 3];
      var q := t + nb;
      dv, dvsize := q, dvsize + (size - nb);
      mem := mem[q + 8 := dvsize + 1][q + dvsize := dvsize];
      cs := PrependChunks(cs, t, nb, t + size, hi, Kind.Free);
      IntoDvDone(h, h1, i, t, size, nb, hi, H());
      PrependUsed(h.cs, t, nb, t + size, hi, Kind.Free);
    }

    method IntoFree(i: nat, t: int, size: nat, nb: nat, hi: int, ghost loose: set<int>)
      requires i < |segs| && t + size == segs[i].base && nb + MIN_CHUNK_SIZE <= size && size % 8 == 0 && Ok(loose)
      requires nb % 8 == 0 && MIN_CHUNK_SIZE <= nb && t > 0 && t % 8 == 0 && Disjoint(mem, segs, t, size)
      requires JoinsAt(cs, segs[i].base, hi, loose)
      modifies this`mem, this`cs, this`segs
      ensures t + nb in cs && cs[t + nb].size == hi - t - nb && Carved(old(H()), H(), t, nb) && SameUsed(old(cs), cs, {t}) && t in cs && cs[t].size == nb && segs == old(segs)[i := Segment(t, size + old(segs)[i].size)] && Ok({t + nb})
    {
      hide HeapOk, SmallBins.SmallBins.Valid, SmallBins.SmallBins.Chunks, TreeBins.TreeBins.Valid, TreeBins.TreeBins.Chunks, Together, Separate, Kept, Disjoint, Prepended, PrependChunks, Region, LooseThen;
      ghost var h := H();
      PrependReady(h, loose, i, hi);
      segs := segs[i := Segment(t, size + segs[i].size)];
      mem := (mem + Region(t, size))[t + 8 := nb + 3];
      var q := t + nb;
      mem := mem[hi + 8 := WithoutPinuse(mem[hi + 8])];
      mem := mem[q + 8 := hi - q + 1];
      mem := mem[hi := hi - q];
      cs := PrependChunks(cs, t, nb, t + size, hi, Kind.Free);
      RegionAside(h, t, size, hi + 8);
      PrependedIs(h, i, t, size, nb, hi, Kind.Free, H());
      LooseJoins(h.cs, t + size, hi, loose);
      Prepend(h, loose, i, t, size, nb, hi, Kind.Free, H());
      OnlyRest(h.cs, t + size, hi, loose, q);
      Remainder(h.cs, t, nb, t + size, hi, Kind.Free);
      PrependUsed(h.cs, t, nb, t + size, hi, Kind.Free);
    }

    // ---- free -------------------------------------------------------------------------------------

    /** lj_alloc_free */
    method Free(p: int)
      requires Valid() && Owned({}) && (p == 0 || p in live)
      modifies this, sb, tb
      ensures Valid() && Owned({}) && live == old(live) - {p} && own == old(own)
      ensures Kept(old(H()), H(), old(H()).live.Keys - {p})
      ensures p != 0 ==> GivenBack(cs, p, p + SizeOf(old(H()), p))
      ensures SameUsed(old(cs), cs, {}) && VictimStays(old(H()), H())
    {
      hide HeapOk, SmallBins.SmallBins.Valid, SmallBins.SmallBins.Chunks, TreeBins.TreeBins.Valid, TreeBins.TreeBins.Chunks, Together, Separate, Kept, SameUsed, GivenBack, AllOwned, VictimStays;
      ghost var h := H();
      if p == 0 {
        NoNull(h);
        Either(live, own, p);
        KeptSelf(h, h.live.Keys - {p});
        SameUsedSelf(cs);
        VictimSelf(h);
        assert live - {p} == live;
      } else {
        Either(live, own, p);
        Unhand(h, p);
        UsedSize(h, p);
        BothRemove(live, own, p);
        live := live - {p};
        ghost var h1 := H();
        FreeChunk(p);
        Freed(h, h1, H(), p);
      }
    }

    /** The body of lj_alloc_free, for a chunk in use that belongs to nobody any more: it becomes part of a
        free chunk or of top, and no other comes into use. */
    method FreeChunk(p: int)
      requires Valid() && p in cs && cs[p].kind.Used? && p !in H().live
      modifies this`mem, this`cs, this`dv, this`dvsize, this`top, this`topsize, sb, tb
      ensures Valid() && Kept(old(H()), H(), old(H()).live.Keys)
      ensures SameUsed(old(cs), cs, {}) && GivenBack(cs, p, p + old(cs[p].size)) && VictimStays(old(H()), H())
    {
      hide HeapOk, SmallBins.SmallBins.Valid, SmallBins.SmallBins.Chunks, TreeBins.TreeBins.Valid, TreeBins.TreeBins.Chunks, Together, Separate, Kept, Gap, HeadAt, SameUsed, GivenBack, VictimStays;
      ghost var h := H();
      HeadRead(h, {}, p);
      var psize := Chunksize(mem[p + 8]);
      var next := p + psize;
      GapUsed(h, {}, p, next);
      if Pinuse(mem[p + 8]) {
        FreeableAlone(h, p, next);
        DvElsewhere(h, p);
        FreeForward(p, psize, next, {});
      } else {
        Backward(h, p, next);
        var prevsize := mem[p];
        var q := p - prevsize;
        psize := psize + prevsize;
        if q != dv {
          UnlinkChunk(q, prevsize, {});
          ghost var h1 := H();
          assert {} + {q} == {q};
          GapBack(h1, q, p, next);
          FreeForward(q, psize, next, {q});
          KeptAround(h, h1, H(), H(), h.live.Keys);
          VictimSame(h, h1, H());
        } else {
          HeadRead(h, {}, next);
          HeadBitsBoth(cs[next], mem[next + 8]);
          GapDv(h, q, p, next);
          DvIs(h, {});
          if mem[next + 8] % 4 == 3 {
            WidenVictim(q, psize, next);
          } else {
            FreeForward(q, psize, next, {});
          }
        }
        GivesLess(cs, q, next, p, next);
      }
    }

    /** The chunk behind the designated victim becomes part of it. */
    method WidenVictim(q: int, psize: nat, next: int)
      requires Valid() && next == q + psize && Freeable(H(), {}, q, next) && q == dv && next in cs && InUse(cs[next].kind)
      requires next + 8 in mem && q in cs && q + cs[q].size <= next
      modifies this`mem, this`cs, this`dvsize
      ensures Valid() && Kept(old(H()), H(), old(H()).live.Keys)
      ensures SameUsed(old(cs), cs, {}) && GivenBack(cs, q, next) && VictimStays(old(H()), H())
    {
      hide HeapOk, SmallBins.SmallBins.Valid, SmallBins.SmallBins.Chunks, TreeBins.TreeBins.Valid, TreeBins.TreeBins.Chunks, Together, Separate, Kept, Freeable, SameUsed, GivenBack;
      ghost var h := H();
      FreeableParts(h, {}, q, next);
      DvIs(h, {});
      dvsize := psize;
      mem := mem[next + 8 := WithoutPinuse(mem[next + 8])][q + 8 := psize + 1][q + psize := psize];
      cs := Put1(cs, q, next, Kind.Free);
      WidenDv(h, q, next, H());
      Put1Used(h.cs, q, next, Kind.Free);
      Put1Gives(h.cs, q, next, Kind.Free, q, next);
    }

    /** Consolidate forward, and put the result into a bin. */
    method FreeForward(q: int, psize: nat, next: int, ghost loose: set<int>)
      requires Ok(loose) && next == q + psize && Freeable(H(), loose, q, next)
      requires q == dv ==> next in cs && !InUse(cs[next].kind) && q + dvsize <= next
      modifies this`mem, this`cs, this`dv, this`dvsize, this`top, this`topsize, sb, tb
      ensures Valid() && Kept(old(H()), H(), old(H()).live.Keys)
      ensures SameUsed(old(cs), cs, {}) && GivenBack(cs, q, next) && VictimStays(old(H()), H())
    {
      hide HeapOk, SmallBins.SmallBins.Valid, SmallBins.SmallBins.Chunks, TreeBins.TreeBins.Valid, TreeBins.TreeBins.Chunks, Together, Separate, Kept, Freeable, HeadAt, SameUsed, GivenBack;
      ghost var h := H();
      FreeableParts(h, loose, q, next);
      HeadRead(h, loose, next);
      if !Cinuse(mem[next + 8]) {
        if next == top {
          ForwardTop(q, psize, loose);
        } else if next == dv {
          ForwardDv(q, psize, loose);
        } else {
          var nsize := Chunksize(mem[next + 8]);
          FreeNext(h, loose, q, next);
          UnlinkChunk(next, nsize, loose);
          ghost var h1 := H();
          FreeBoth(q, psize + nsize, next, loose);
          KeptAround(h, h1, H(), H(), h.live.Keys);
        }
      } else {
        mem := mem[next + 8 := WithoutPinuse(mem[next + 8])];
        mem := mem[q + 8 := psize + 1];
        mem := mem[q + psize := psize];
        cs := Put1(cs, q, next, Kind.Free);
        FreedAlone(h, loose, q, next, H());
        Put1Used(h.cs, q, next, Kind.Free);
        Put1Gives(h.cs, q, next, Kind.Free, q, next);
        ghost var h2 := H();
        InsertChunk(q, psize, {q});
        assert {q} - {q} == {};
        KeptAround(h, h, h2, H(), h.live.Keys);
      }
    }

    method ForwardTop(q: int, psize: nat, ghost loose: set<int>)
      requires Ok(loose) && q + psize == top && Freeable(H(), loose, q, top)
      modifies this`mem, this`cs, this`dv, this`dvsize, this`top, this`topsize
      ensures Valid() && Kept(old(H()), H(), old(H()).live.Keys)
      ensures SameUsed(old(cs), cs, {}) && GivenBack(cs, q, old(top)) && VictimStays(old(H()), H())
    {
      hide HeapOk, SmallBins.SmallBins.Valid, SmallBins.SmallBins.Chunks, TreeBins.TreeBins.Valid, TreeBins.TreeBins.Chunks, Together, Separate, Kept, Freeable, HeadAt, SameUsed, GivenBack;
      ghost var h := H();
      ghost var hi := top + topsize;
      FreeableParts(h, loose, q, top);
      TopNumbers(h, loose, hi);
      var tsize := topsize + psize;
      topsize := tsize;
      top := q;
      mem := mem[q + 8 := tsize + 1];
      if q == dv {
        dv := 0;
        dvsize := 0;
      }
      cs := Put1(cs, q, hi, Top);
      FreedTop(h, loose, q, h.top, hi, H());
      Put1Used(h.cs, q, hi, Top);
      Put1Gives(h.cs, q, hi, Top, q, h.top);
    }

    method ForwardDv(q: int, psize: nat, ghost loose: set<int>)
      requires Ok(loose) && q + psize == dv && dvsize > 0 && Freeable(H(), loose, q, dv)
      modifies this`mem, this`cs, this`dv, this`dvsize
      ensures Valid() && Kept(old(H()), H(), old(H()).live.Keys)
      ensures SameUsed(old(cs), cs, {}) && GivenBack(cs, q, old(dv)) && VictimStays(old(H()), H())
    {
      hide HeapOk, SmallBins.SmallBins.Valid, SmallBins.SmallBins.Chunks, TreeBins.TreeBins.Valid, TreeBins.TreeBins.Chunks, Together, Separate, Kept, Freeable, HeadAt, SameUsed, GivenBack;
      ghost var h := H();
      ghost var hi := dv + dvsize;
      FreeableParts(h, loose, q, dv);
      DvIs(h, loose);
      Behind(h, loose, dv, hi);
      dvsize := dvsize + psize;
      dv := q;
      mem := mem[q + 8 := dvsize + 1];
      mem := mem[q + dvsize := dvsize];
      cs := Put1(cs, q, hi, Kind.Free);
      FreedIntoDv(h, loose, q, h.dv, hi, H());
      Put1Used(h.cs, q, hi, Kind.Free);
      Put1Gives(h.cs, q, hi, Kind.Free, q, h.dv);
    }

    /** The next chunk is unlinked already. */
    method FreeBoth(q: int, psize: nat, next: int, ghost loose: set<int>)
      requires Ok(loose + {next}) && next in cs && q + psize == next + cs[next].size && Freeable(H(), loose, q, next)
      requires next != dv && (q == dv ==> q + dvsize <= next)
      modifies this`mem, this`cs, this`dvsize, sb, tb
      ensures Valid() && Kept(old(H()), H(), old(H()).live.Keys)
      ensures SameUsed(old(cs), cs, {}) && GivenBack(cs, q, next) && VictimStays(old(H()), H())
    {
      hide HeapOk, SmallBins.SmallBins.Valid, SmallBins.SmallBins.Chunks, TreeBins.TreeBins.Valid, TreeBins.TreeBins.Chunks, Together, Separate, Kept, Freeable, HeadAt, SameUsed, GivenBack;
      ghost var h := H();
      ghost var hi := q + psize;
      FreeableParts(h, loose, q, next);
      FreeFacts(h, loose + {next}, next);
      Behind(h, loose + {next}, next, hi);
      mem := mem[q + 8 := psize + 1];
      mem := mem[q + psize := psize];
      cs := Put1(cs, q, hi, Kind.Free);
      Put1Used(h.cs, q, hi, Kind.Free);
      Put1Gives(h.cs, q, hi, Kind.Free, q, next);
      if q == dv {
        dvsize := psize;
        FreedBothDv(h, loose, q, next, hi, H());
      } else {
        FreedBoth(h, loose, q, next, hi, H());
        ghost var h2 := H();
        InsertChunk(q, psize, {q});
        assert {q} - {q} == {};
        KeptAround(h, h, h2, H(), h.live.Keys);
      }
    }

    // ---- The interface ----------------------------------------------------------------------------

    /** lj_alloc_malloc; mm is the answer of CALL_MMAP, should it be asked. */
    method Malloc(nsize: nat, mm: int) returns (p: int)
      requires Valid() && Owned({}) && nsize < SIZE_T_RANGE && MmapAnswer(mem, segs, MmapSize(ChunkSizeFor(nsize)), mm)
      modifies this, sb, tb
      ensures Valid() && Owned({}) && OwnGrows(old(own), own, |segs| - |old(segs)|)
      ensures p != 0 ==> p !in old(live) && live == old(live)[p := nsize] && GotBlock(old(H()), H(), p, nsize)
      ensures p != 0 ==> Placed(old(H()), ChunkSizeFor(nsize), p) && Remains(old(H()), H(), ChunkSizeFor(nsize), p)
      ensures p != 0 ==> SegsAfter(old(H()), H(), ChunkSizeFor(nsize), mm, p)
      ensures p == 0 ==> H() == old(H()) && live == old(live)
      ensures p == 0 ==> old(NothingFits(H(), ChunkSizeFor(nsize)))
      ensures p == 0 ==> mm == CMFAIL || Overflows(nsize)
      ensures Kept(old(H()), H(), old(H()).live.Keys)
    {
      hide HeapOk, SmallBins.SmallBins.Valid, SmallBins.SmallBins.Chunks, TreeBins.TreeBins.Valid, TreeBins.TreeBins.Chunks, Together, Separate, Kept, Carved, Placed, Remains, SameUsed, AllOwned, OwnGrows, NothingFits, Overflows, MmapAnswer, SegsAfter;
      ghost var h := H();
      p := MallocChunk(nsize, mm);
      GrewBy(old(own), own, |segs| - |old(segs)|);
      ghost var h1 := H();
      if p != 0 {
        RequestSizes(nsize);
        live := live[p := nsize];
        SegsToo(h, h1, H(), ChunkSizeFor(nsize), mm, p);
        HandedOut(h, h1, H(), p, ChunkSizeFor(nsize), nsize, old(live), old(own), own);
      } else {
        KeptSelf(h, h.live.Keys);
      }
    }

    method MallocChunk(nsize: nat, mm: int) returns (p: int)
      requires Valid() && nsize < SIZE_T_RANGE && MmapAnswer(mem, segs, MmapSize(ChunkSizeFor(nsize)), mm)
      modifies this, sb, tb
      ensures Valid()
      ensures p != 0 ==> nsize < MAX_REQUEST && Carved(old(H()), H(), p, ChunkSizeFor(nsize))
      ensures p != 0 ==> Placed(old(H()), ChunkSizeFor(nsize), p) && Remains(old(H()), H(), ChunkSizeFor(nsize), p)
      ensures p != 0 ==> SegsAfter(old(H()), H(), ChunkSizeFor(nsize), mm, p)
      ensures live == old(live) && OwnGrows(old(own), own, |segs| - |old(segs)|)
      ensures SameUsed(old(cs), cs, {p} + (own.Keys - old(own).Keys))
      ensures p == 0 ==> H() == old(H()) && NothingFits(H(), ChunkSizeFor(nsize))
      ensures p == 0 ==> mm == CMFAIL || Overflows(nsize)
    {
      hide HeapOk, SmallBins.SmallBins.Valid, SmallBins.SmallBins.Chunks, TreeBins.TreeBins.Valid, TreeBins.TreeBins.Chunks, Together, Separate, Kept, Carved, MmapAnswer, MmapSize, Placed, Remains, SameUsed, OwnGrows, BetterThanDv, HasSmall, NoneBinned, SegsAfter, NothingFits;
      ghost var h := H();
      RequestSizes(nsize);
      Bounds(h);
      OwnSame(own);
      assert forall q: int :: {q} + {} == {q};
      var nb;
      if nsize <= MAX_SMALL_REQUEST {
        nb := if nsize < MIN_REQUEST then MIN_CHUNK_SIZE else PadRequest(nsize);
        p := MallocSmall(nb);
        if p != 0 {
          SegsUntouched(h, H(), nb, mm, p);
          return;
        }
      } else if nsize >= MAX_REQUEST {
        nb := SIZE_T_RANGE - 1;
        NoTreeFits(h, nb);
      } else {
        nb := PadRequest(nsize);
        var trees := tb.AnyTree();
        if trees {
          p := TmallocLarge(nb);
          if p != 0 {
            PlacedTree(h, nb, p);
            SegsUntouched(h, H(), nb, mm, p);
            return;
          }
          NoneBetter(h, nb);
        } else {
          NoTreeFits(h, nb);
        }
      }
      p := TakeDvOrTop(nsize, nb, mm);
    }

    /** The end of lj_alloc_malloc: split dv, or top, or ask the system. */
    method TakeDvOrTop(nsize: nat, nb: nat, mm: int) returns (p: int)
      requires Valid() && nsize < SIZE_T_RANGE && nb == ChunkSizeFor(nsize) && MmapAnswer(mem, segs, MmapSize(nb), mm)
      requires NothingBetter(H(), nb)
      modifies this, sb, tb
      ensures Valid()
      ensures p != 0 ==> nsize < MAX_REQUEST && Carved(old(H()), H(), p, nb)
      ensures p != 0 ==> Placed(old(H()), nb, p) && Remains(old(H()), H(), nb, p) && SegsAfter(old(H()), H(), nb, mm, p)
      ensures live == old(live) && OwnGrows(old(own), own, |segs| - |old(segs)|)
      ensures SameUsed(old(cs), cs, {p} + (own.Keys - old(own).Keys))
      ensures p == 0 ==> H() == old(H()) && NothingFits(H(), nb)
      ensures p == 0 ==> mm == CMFAIL || MmapSize(nb) <= nb
    {
      hide HeapOk, SmallBins.SmallBins.Valid, SmallBins.SmallBins.Chunks, TreeBins.TreeBins.Valid, TreeBins.TreeBins.Chunks, Together, Separate, Kept, Carved, MmapAnswer, MmapSize, SameUsed, OwnGrows, Placed, Remains, NothingBetter, SegsAfter, NoneBinned;
      ghost var h := H();
      RequestSizes(nsize);
      Bounds(h);
      OwnSame(own);
      assert forall q: int :: {q} + {} == {q};
      if nb <= dvsize {
        p := TakeDv(nb);
        CarvedPositive(h, H(), p, nb);
        PlacedDv(h, nb, p);
        SegsStay(h, H(), nb, mm, p);
      } else if nb < topsize {
        p := SplitTop(nb);
        CarvedPositive(h, H(), p, nb);
        PlacedTop(h, H(), nb, p);
        SegsStay(h, H(), nb, mm, p);
      } else {
        NothingBetterFits(h, nb);
        HugeFails(nsize);
        p := AllocSys(nb, mm);
        if p != 0 {
          PlacedNew(h, H(), nb, p);
          SegsGrow(h, H(), nb, mm, p);
        }
      }
    }

    /** lj_alloc_realloc on a block: its first bytes stay, in place if the new size has room there, or moved. */
    method Realloc(p: int, nsize: nat, mm: int) returns (r: int)
      requires Valid() && Owned({}) && p in live && nsize < SIZE_T_RANGE
      requires MmapAnswer(mem, segs, MmapSize(ChunkSizeFor(nsize)), mm)
      modifies this, sb, tb
      ensures Valid() && Owned({})
      ensures r == 0 ==> H() == old(H()) && live == old(live)
      ensures r == 0 ==> nsize >= MAX_REQUEST || ((mm == CMFAIL || Overflows(nsize)) && old(NothingFits(H(), ChunkSizeFor(nsize))))
      ensures r != 0 ==> (r == p || r !in old(live)) && live == (old(live) - {p})[r := nsize]
      ensures r != 0 ==> Kept(old(H()), H(), old(H()).live.Keys - {p})
      ensures r != 0 ==> PrefixMoved(old(H()), H(), p, r, nsize)
      ensures nsize < MAX_REQUEST ==> (old(InPlace(H(), p, ChunkSizeFor(nsize))) <==> r == p)
      ensures r != 0 && r != p ==> Placed(old(H()), ChunkSizeFor(nsize), r)
      ensures r != 0 ==> Resized(old(H()), H(), p, r, ChunkSizeFor(nsize))
    {
      hide HeapOk, SmallBins.SmallBins.Valid, SmallBins.SmallBins.Chunks, TreeBins.TreeBins.Valid, TreeBins.TreeBins.Chunks, Together, Separate, Kept, Gap, AllOwned, Placed, PrefixMoved, Resized, MmapAnswer, MmapSize, Overflows, NothingFits;
      ghost var h := H();
      Either(live, own, p);
      LiveIs(h, p);
      NoNull(h);
      if nsize >= MAX_REQUEST {
        r := 0;
        return;
      }
      RequestSizes(nsize);
      HeadRead(h, {}, p);
      var oldsize := Chunksize(mem[p + 8]);
      var next := p + oldsize;
      var nb := ChunkSizeFor(nsize);
      if oldsize >= nb {
        Shrink(p, nb, nsize);
        r := p;
        assert old(live)[p := nsize] == (old(live) - {p})[r := nsize];
      } else if next == top && oldsize + topsize > nb {
        Extend(p, nb, nsize);
        r := p;
        assert old(live)[p := nsize] == (old(live) - {p})[r := nsize];
      } else {
        r := MoveBlock(p, oldsize, nsize, mm);
      }
    }

    /** set_inuse */
    method SetInuse(p: int, s: nat)
      requires p + 8 in mem && p + s + 8 in mem
      modifies this`mem
      ensures mem == InuseWords(old(mem), p, s)
    {
      mem := mem[p + 8 := mem[p + 8] % 2 + s + 2];
      mem := mem[p + s + 8 := WithPinuse(mem[p + s + 8])];
    }

    /** set_inuse on both parts of a block that is cut in two. */
    method CutUsed(p: int, nb: nat, rsize: nat, ghost nsize: nat)
      requires Valid() && p in live && p in cs && cs[p].size == nb + rsize && nb >= nsize + 8
      requires nb % 8 == 0 && nb >= MIN_CHUNK_SIZE && rsize >= MIN_CHUNK_SIZE
      modifies this`mem, this`cs, this`live
      ensures Valid() && live == old(live)[p := nsize] && SameUsed(old(cs), cs, {p, p + nb})
      ensures p in cs && cs[p].size == nb && p + nb in cs && cs[p + nb].kind.Used? && p + nb !in H().live && cs[p + nb].size == rsize
      ensures Kept(old(H()), H(), old(H()).live.Keys - {p}) && PrefixKept(old(H()), H(), p, p + nb + 8)
      ensures H().live == old(H()).live[p := nsize]
    {
      hide HeapOk, SmallBins.SmallBins.Valid, SmallBins.SmallBins.Chunks, TreeBins.TreeBins.Valid, TreeBins.TreeBins.Chunks, Together, Separate, Kept, PrefixKept, SameUsed, InuseWords, Put2;
      ghost var h := H();
      Either(live, own, p);
      LiveIs(h, p);
      var n := p + nb + rsize;
      var rem := p + nb;
      UsedBehind(h, p, rem, n);
      SetInuse(p, nb);
      HeadBehind(h.mem, p, nb, mem, n);
      SetInuse(rem, rsize);
      BothAdd(live, own, p, nsize);
      cs, live := Put2(cs, p, rem, n, Used, Used), live[p := nsize];
      CutIs(h, p, rem, n, mem);
      SplitUsed(h, {}, p, rem, n, nsize, H());
      Put2Used(h.cs, p, rem, n, Used, Used);
    }

    /** Already big enough: what is too much is given back. */
    method Shrink(p: int, nb: nat, nsize: nat)
      requires Valid() && Owned({}) && p in live && p in cs && cs[p].size >= nb && nb >= nsize + 8 && nb % 8 == 0 && nb >= MIN_CHUNK_SIZE
      modifies this, sb, tb
      ensures Valid() && Owned({}) && live == old(live)[p := nsize]
      ensures Kept(old(H()), H(), old(H()).live.Keys - {p}) && PrefixMoved(old(H()), H(), p, p, nsize)
      ensures Resized(old(H()), H(), p, p, nb)
    {
      hide HeapOk, SmallBins.SmallBins.Valid, SmallBins.SmallBins.Chunks, TreeBins.TreeBins.Valid, TreeBins.TreeBins.Chunks, Together, Separate, Kept, PrefixMoved, PrefixKept, SameUsed, AllOwned, GivenBack, VictimStays, Resized;
      ghost var h := H();
      Either(live, own, p);
      LiveIs(h, p);
      HeadRead(h, {}, p);
      BothAdd(live, own, p, nsize);
      var rsize := Chunksize(mem[p + 8]) - nb;
      if rsize >= MIN_CHUNK_SIZE {
        var rem := p + nb;
        CutUsed(p, nb, rsize, nsize);
        ghost var h1 := H();
        FreeChunk(rem);
        Shrunk(h, h1, H(), p, nb, nsize);
        ShrunkOwned(h, h1, H(), p, nb, nsize);
      } else {
        Hand(h, p, nsize);
        live := live[p := nsize];
        KeptSelf(h, h.live.Keys - {p});
        KeptAround(h, h, h, H(), h.live.Keys - {p});
        PrefixSelf(h, H(), p, nsize);
        SameSize(h, H(), p, nb, nsize);
      }
    }

    /** Expand into top. */
    method Extend(p: int, nb: nat, nsize: nat)
      requires Valid() && Owned({}) && p in live && p in cs && p + cs[p].size == top && cs[p].size < nb < cs[p].size + topsize
      requires nb >= nsize + 8 && nb % 8 == 0
      modifies this`mem, this`cs, this`live, this`top, this`topsize
      ensures Valid() && Owned({}) && live == old(live)[p := nsize]
      ensures Kept(old(H()), H(), old(H()).live.Keys - {p}) && PrefixMoved(old(H()), H(), p, p, nsize)
      ensures Resized(old(H()), H(), p, p, nb)
    {
      hide HeapOk, SmallBins.SmallBins.Valid, SmallBins.SmallBins.Chunks, TreeBins.TreeBins.Valid, TreeBins.TreeBins.Chunks, Together, Separate, Kept, PrefixMoved, Put2, InuseWords, AllOwned, SameUsed, Resized, Chunksize;
      ghost var h := H();
      Either(live, own, p);
      ghost var n := top + topsize;
      ExtendReady(h, p, nb);
      var newsize := Chunksize(mem[p + 8]) + topsize;
      var newtopsize := newsize - nb;
      var newtop := p + nb;
      SetInuse(p, nb);
      mem, top, topsize := mem[newtop + 8 := newtopsize + 1], newtop, newtopsize;
      cs, live := Put2(cs, p, newtop, n, Used, Top), live[p := nsize];
      ExtendAll(h, H(), p, nb, nsize, old(live), own);
    }

    /** malloc, copy, free. */
    method MoveBlock(p: int, oldsize: nat, nsize: nat, mm: int) returns (r: int)
      requires Valid() && Owned({}) && p in live && p in cs && oldsize == cs[p].size && nsize < MAX_REQUEST
      requires MmapAnswer(mem, segs, MmapSize(ChunkSizeFor(nsize)), mm)
      modifies this, sb, tb
      ensures Valid() && Owned({})
      ensures r == 0 ==> H() == old(H()) && live == old(live) && old(NothingFits(H(), ChunkSizeFor(nsize)))
      ensures r == 0 ==> mm == CMFAIL || Overflows(nsize)
      ensures r != 0 ==> r !in old(live) && live == (old(live) - {p})[r := nsize]
      ensures r != 0 ==> Kept(old(H()), H(), old(H()).live.Keys - {p})
      ensures r != 0 ==> PrefixMoved(old(H()), H(), p, r, nsize)
      ensures r != 0 ==> Placed(old(H()), ChunkSizeFor(nsize), r) && Resized(old(H()), H(), p, r, ChunkSizeFor(nsize))
    {
      hide HeapOk, SmallBins.SmallBins.Valid, SmallBins.SmallBins.Chunks, TreeBins.TreeBins.Valid, TreeBins.TreeBins.Chunks, Together, Separate, Kept, PrefixMoved, AllOwned, Placed, Remains, SameUsed, GivenBack, VictimStays, Resized, OwnGrows, MmapAnswer, Overflows;
      ghost var h := H();
      Either(live, own, p);
      RequestSizes(nsize);
      r := Malloc(nsize, mm);
      if r != 0 {
        ghost var h1 := H();
        KeptSize(h, h1, p);
        LiveIs(h, p);
        LittleWaste(h, h1, ChunkSizeFor(nsize), r);
        var oc := oldsize - 8;
        CopyBlock(p, r, if oc < nsize then oc else nsize);
        ghost var h2 := H();
        StoreOwned(h1, h2, {});
        Free(p);
        Moved(h, h1, h2, H(), p, r, nsize);
        MovedSize(h, h1, h2, H(), p, r, ChunkSizeFor(nsize));
      }
    }

    /** memcpy from the payload of one block to that of another */
    method CopyBlock(p: int, r: int, n: nat)
      requires Valid() && p in live && r in live && p != r && n <= live[r] && p in cs && n + 8 <= cs[p].size
      modifies this`mem
      ensures Valid() && Kept(old(H()), H(), H().live.Keys - {r})
      ensures Copied(old(mem), p + 16, mem, r + 16, n)
    {
      hide HeapOk, SmallBins.SmallBins.Valid, SmallBins.SmallBins.Chunks, TreeBins.TreeBins.Valid, TreeBins.TreeBins.Chunks, Together, Separate, Kept;
      ghost var h := H();
      Either(live, own, p);
      Either(live, own, r);
      KeptSelf(h, h.live.Keys - {r});
      var k: nat := 0;
      while k < n
        invariant k <= n && Valid() && Kept(h, H(), h.live.Keys - {r})
        invariant Copied(h.mem, p + 16, mem, r + 16, k)
      {
        ghost var h1 := H();
        SourceKept(h, h1, h.live.Keys - {r}, p, p + 16 + k);
        LiveIs(h1, r);
        PayloadStore(h1, r, r + 16 + k, mem[p + 16 + k]);
        CopyStep(h.mem, p + 16, mem, r + 16, k);
        mem := mem[r + 16 + k := mem[p + 16 + k]];
        KeptThen(h, h1, H(), h.live.Keys - {r});
        k := k + 1;
      }
    }

    /** The program writes into a block of its own. */
    method Store(p: int, a: int, v: int)
      requires Valid() && Owned({}) && p in live && p + 16 <= a < p + 16 + live[p]
      modifies this`mem
      ensures Valid() && Owned({}) && Kept(old(H()), H(), H().live.Keys - {p}) && mem == old(mem)[a := v]
    {
      hide HeapOk, SmallBins.SmallBins.Valid, SmallBins.SmallBins.Chunks, TreeBins.TreeBins.Valid, TreeBins.TreeBins.Chunks, Together, Separate, Kept, AllOwned;
      ghost var h := H();
      Either(live, own, p);
      LiveIs(H(), p);
      PayloadStore(H(), p, a, v);
      mem := mem[a := v];
      StoreOwned(h, H(), {});
    }

    // ---- Refinement of plain blocks ---------------------------------------------------------------

    /** What the program knows of the contents of its blocks is there. */
    ghost predicate Holds(known: map<int, map<int, int>>)
      reads this, sb, tb
    {
      known.Keys == live.Keys && BlocksHold(View(), live, known)
    }

    lemma HoldsApart(known: map<int, map<int, int>>)
      requires Valid()
      ensures BlocksHold(View(), live, known) <==> BlocksHold(mem, live, known)
    {
      hide HeapOk, SmallBins.SmallBins.Valid, SmallBins.SmallBins.Chunks, TreeBins.TreeBins.Valid, TreeBins.TreeBins.Chunks, Together, Separate, BlocksHold, RecordsOf, InFree, Overlay;
      LinksInFree({});
      UsersOk(H(), live, own);
      RecordsSame(H(), H().(live := live), sb.node, tb.node);
      HoldInMemory(H().(live := live), sb.node, tb.node, known);
    }

    /** lj_alloc_f, and stores by the program: the heap behaves like a set of separate blocks. */
    method Serve(q: Request, mm: int, ghost known: map<int, map<int, int>>) returns (r: int)
      requires Valid() && Owned({}) && Holds(known) && Permitted(live, q)
      requires q.Alloc? ==> MmapAnswer(mem, segs, MmapSize(ChunkSizeFor(q.nsize)), mm)
      modifies this, sb, tb
      ensures Valid() && Owned({})
      ensures AnswerOk(old(live), q, r)
      ensures q.Alloc? && q.nsize > 0 && r == 0 ==> q.nsize >= MAX_REQUEST || mm == CMFAIL || Overflows(q.nsize)
      ensures q.Alloc? && q.nsize > 0 && r == 0 ==> q.nsize >= MAX_REQUEST || old(Hopeless(H(), q.ptr, ChunkSizeFor(q.nsize)))
      ensures q.Alloc? && q.nsize == 0 && q.ptr != 0 ==> GivenBack(cs, q.ptr, q.ptr + SizeOf(old(H()), q.ptr))
      ensures live == Served(old(live), q, r)
      ensures Holds(Learned(known, q, r))
    {
      hide HeapOk, SmallBins.SmallBins.Valid, SmallBins.SmallBins.Chunks, TreeBins.TreeBins.Valid, TreeBins.TreeBins.Chunks, Together, Separate, Kept, PrefixMoved, MmapAnswer, View, BlocksHold, AllOwned, Placed, Remains, Resized, SameUsed, VictimStays, GivenBack, OwnGrows, MmapSize, Overflows, NothingFits, InPlace, SizeOf;
      ghost var h := H();
      HoldsApart(known);
      match q {
        case Store(p, k, v) =>
          r := 0;
          Store(p, p + 16 + k, v);
          UsersStore(h, H(), live, own, known, p, k, v);
        case Alloc(ptr, nsize) =>
          NoNull(h);
          Either(live, own, 0);
          if nsize == 0 {
            Free(ptr);
            r := 0;
            UsersFree(h, H(), old(live), old(own), known, ptr);
          } else if ptr == 0 {
            r := Malloc(nsize, mm);
            if r != 0 { UsersMalloc(h, H(), old(live), old(own), known, r, nsize); }
          } else {
            r := Realloc(ptr, nsize, mm);
            if r != 0 { UsersRealloc(h, H(), old(live), old(own), known, ptr, r, nsize); }
          }
      }
      HoldsApart(Learned(known, q, r));
    }

    /** The request is made if it is permitted; the system fails where its offer is none. */
    method Ask(q: Request, offer: int, blocks: map<int, nat>, ghost known: map<int, map<int, int>>) returns (r: int)
      requires Valid() && Owned({}) && Holds(known) && blocks == live
      modifies this, sb, tb
      ensures Valid() && Owned({}) && AnswerOk(blocks, q, r)
      ensures live == (if Permitted(blocks, q) then Served(blocks, q, r) else blocks)
      ensures Holds(if Permitted(blocks, q) then Learned(known, q, r) else known)
    {
      hide HeapOk, SmallBins.SmallBins.Valid, SmallBins.SmallBins.Chunks, TreeBins.TreeBins.Valid, TreeBins.TreeBins.Chunks, Together, Separate, View, BlocksHold, MmapAnswer, MmapSize, AllOwned;
      r := 0;
      if Permitted(blocks, q) {
        var mm := CMFAIL;
        if q.Alloc? {
          var size := MmapSize(ChunkSizeFor(q.nsize));
          Failing(mem, segs, size);
          mm := if MmapAnswer(mem, segs, size, offer) then offer else CMFAIL;
        }
        r := Serve(q, mm, known);
      }
    }

    /** Any run: the requests of a program, and what the system offers when asked for memory. */
    method Run(qs: seq<Request>, offers: seq<int>) returns (rs: seq<int>)
      requires Valid() && Owned({}) && live == map[] && |offers| == |qs|
      modifies this, sb, tb
      ensures Valid() && Owned({}) && |rs| == |qs|
      ensures live == Blocks(qs, rs) && Holds(Known(qs, rs))
      ensures forall i | 0 <= i < |qs| :: AnswerOk(Blocks(qs[..i], rs[..i]), qs[i], rs[i])
    {
      hide Valid, Owned, Holds, Permitted, Served, Learned, AnswerOk, Blocks, Known;
      rs := [];
      var blocks := map[];
      NothingKnown();
      NothingDone(qs);
      while |rs| < |qs|
        invariant Valid() && Owned({}) && |rs| <= |qs|
        invariant blocks == live == Blocks(qs[..|rs|], rs) && Holds(Known(qs[..|rs|], rs))
        invariant forall i | 0 <= i < |rs| :: AnswerOk(Blocks(qs[..i], rs[..i]), qs[i], rs[i])
      {
        var i := |rs|;
        var r := Ask(qs[i], offers[i], blocks, Known(qs[..i], rs));
        if Permitted(blocks, qs[i]) {
          blocks := Served(blocks, qs[i], r);
        }
        RunStep(qs, rs, i, r);
        AnswersStep(qs, rs, r);
        rs := rs + [r];
      }
      assert qs[..|qs|] == qs;
    }

    lemma NothingKnown()
      requires live == map[]
      ensures Holds(map[])
    {}
  }
}
