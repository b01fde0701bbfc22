/** The tree bins of malloc_state and the macros and loops that work on them in place. */
module TreeBins {
  import opened TreeIndex
  import opened Trie
  import opened Rings
  import opened BestFit

  lemma DeepestIsExact(i: nat, p: seq<bool>, a: nat, b: nat)
    requires InRange(i, p, a) && InRange(i, p, b) && a != b
    ensures |p| < TopBits(i)
  {}

  class TreeBins {
    var node: map<int, TChunk>    // the chunk words, by chunk address
    var treebins: seq<int>
    var treemap: seq<bool>
    ghost var path: map<int, seq<bool>>
    ghost var ring: map<int, seq<int>>
    ghost var owner: map<int, int>

    ghost function T(): Trie
      reads this
    {
      Trie(node, treebins, treemap, path)
    }

    ghost function B(): Bins
      reads this
    {
      Bins(T(), ring, owner)
    }

    ghost predicate Valid()
      reads this
    {
      Rings.Valid(B())
    }

    /** The abstract value: the binned chunks with their sizes. */
    function Chunks(): map<int, nat>
      reads this
    {
      Contents(node)
    }

    constructor ()
      ensures Valid() && Chunks() == map[]
    {
      node, treebins, treemap := map[], seq(NTREEBINS, _ => 0), seq(NTREEBINS, _ => false);
      path, ring, owner := map[], map[], map[];
    }

    /** insert_large_chunk */
    method Insert(x: int, s: nat)
      requires Valid() && x > 0 && x !in node && 256 <= s < INDEX_LIMIT
      modifies this
      ensures Valid() && Chunks() == old(Chunks())[x := s]
    {
      var i := ComputeTreeIndex(s);
      TreeIndexCorrect(s);
      assert RootOk(T(), i);
      if !treemap[i] {
        PlantRoot(i, x, s);
      } else {
        var t, k := FindPlace(i, s);
        if node[t].size != s {
          HangLeaf(t, k >= SIGN_BIT, x, s);
        } else {
          JoinRing(t, x, s);
        }
      }
    }

    method PlantRoot(i: nat, x: int, s: nat)
      requires Valid() && x > 0 && x !in node && 256 <= s < INDEX_LIMIT
      requires i == ComputeTreeIndex(s) && i < NTREEBINS && treebins[i] == 0 && InRange(i, [], s)
      modifies this
      ensures Valid() && Chunks() == old(Chunks())[x := s]
    {
      hide Rings.Valid, Inv;
      ghost var b := B();
      ValidParts(b);
      var c := TChunk(s, x, x, 0, 0, BinSlot(i), i);
      PlantedValid(b, x, c);
      treemap := treemap[i := true];
      treebins := treebins[i := x];
      node := node[x := c];
      path, ring, owner := path[x := []], ring[x := [x]], owner[x := x];
      assert B() == WithSingleton(b, InsertRoot(b.t, x, c), x);
    }

    method HangLeaf(t: int, right: bool, x: int, s: nat)
      requires Valid() && x > 0 && x !in node && 256 <= s < INDEX_LIMIT
      requires t in path && t in node && node[t].index == ComputeTreeIndex(s)
      requires Child(node[t], right) == 0 && InRange(node[t].index, path[t] + [right], s)
      modifies this
      ensures Valid() && Chunks() == old(Chunks())[x := s]
    {
      hide Rings.Valid, Inv, InRange;
      ghost var b := B();
      ValidParts(b);
      var c := TChunk(s, x, x, 0, 0, t, node[t].index);
      HungValid(b, x, c, t, right);
      node := node[t := WithChild(node[t], right, x)];
      node := node[x := c];
      path, ring, owner := path[x := path[t] + [right]], ring[x := [x]], owner[x := x];
      assert B() == WithSingleton(b, InsertLeaf(b.t, x, c, t, right), x);
    }

    method JoinRing(t: int, x: int, s: nat)
      requires Valid() && x > 0 && x !in node && 256 <= s < INDEX_LIMIT
      requires t in path && t in node && node[t].index == ComputeTreeIndex(s) && node[t].size == s
      modifies this
      ensures Valid() && Chunks() == old(Chunks())[x := s]
    {
      hide Rings.Valid, Inv, RingOk;
      ghost var b := B();
      RingSizeByBk(b, t);
      var f := node[t].fd;
      var c := TChunk(s, f, t, 0, 0, 0, node[t].index);
      JoinRingValid(b, t, x, c);
      node := SetFd(node, t, x);
      node := SetBk(node, f, x);
      node := node[x := c];
      ring, owner := ring[t := [t, x] + ring[t][1..]], owner[x := t];
      assert B() == Rings.JoinRing(b, t, x, c);
    }

    /** The descent of insert_large_chunk: stops at an equal-sized node, or above an empty slot. */
    method FindPlace(i: nat, s: nat) returns (t: int, k: nat)
      requires Valid() && i < NTREEBINS && treemap[i] && InRange(i, [], s)
      ensures t in path && t in node && node[t].index == i && k < SIZE_T_RANGE
      ensures node[t].size != s ==>
                Child(node[t], k >= SIGN_BIT) == 0 && InRange(i, path[t] + [k >= SIGN_BIT], s)
    {
      assert RootOk(T(), i);
      t := treebins[i];
      k := ShiftToTop(s, i);
      ShiftStart(i, s);
      while node[t].size != s && Child(node[t], k >= SIGN_BIT) != 0
        invariant t in path && t in node && node[t].index == i && Shifted(i, path[t], s, k)
        decreases TopBits(i) - |path[t]|
      {
        assert SizeOk(T(), t) && DownFrom(T(), t);
        DeepestIsExact(i, path[t], s, node[t].size);
        ShiftStep(i, path[t], s, k);
        t := Child(node[t], k >= SIGN_BIT);
        k := Twice(k);
      }
      if node[t].size != s {
        assert SizeOk(T(), t);
        DeepestIsExact(i, path[t], s, node[t].size);
        ShiftStep(i, path[t], s, k);
      }
    }
  
    /** unlink_large_chunk */
    method Unlink(x: int)
      requires Valid() && x in node
      modifies this
      ensures Valid() && Chunks() == old(Chunks()) - {x}
    {
      hide Rings.Valid;
      NodeFacts(B(), x);
      if node[x].bk != x {
        if node[x].parent == 0 {
          LeaveRing(x);
        } else {
          HandOver(x);
        }
      } else {
        AloneIsNode(B(), x);
        DropNode(x);
      }
    }

    method LeaveRing(x: int)
      requires Valid() && x in node && x !in path
      modifies this
      ensures Valid() && Chunks() == old(Chunks()) - {x}
    {
      hide Rings.Valid;
      ghost var b := B();
      ghost var h, k := PlaceInRing(b, x);
      LeaveRingValid(b, h, k);
      UnlinkWordsSame(node, x);
      var f, r := node[x].fd, node[x].bk;
      node := SetBk(node, f, r);
      node := SetFd(node, r, f);
      node := node - {x};
      ring, owner := ring[h := Without(ring[h], k)], owner - {x};
      assert B() == Rings.LeaveRing(b, h, k);
    }

    method HandOver(x: int)
      requires Valid() && x in node && x in path && node[x].bk != x
      modifies this
      ensures Valid() && Chunks() == old(Chunks()) - {x}
    {
      hide Rings.Valid, Inv, MayTakeOver, RingOk, RingWordsKept;
      ghost var b := B();
      RingSizeByBk(b, x);
      HandOverReady(b, x);
      UnlinkWordsSame(node, x);
      var f, r := node[x].fd, node[x].bk;
      node := SetBk(node, f, r);
      node := SetFd(node, r, f);
      assert T() == b.t.(node := UnlinkWords(b.t.node, x));
      Replace(x, r);
      ring, owner := Rings.HandOver(b, T(), x).ring, Rings.HandOver(b, T(), x).owner;
      HandOverValid(b, T(), x);
      SizesKept(b.t.node, UnlinkWords(b.t.node, x), node, x, r);
    }

    method DropNode(x: int)
      requires Valid() && x in node && x in path && node[x].bk == x
      modifies this
      ensures Valid() && Chunks() == old(Chunks()) - {x}
    {
      hide Rings.Valid, Inv, MayTakeOver, RingOk;
      ghost var b := B();
      ValidParts(b);
      RingSizeByBk(b, x);
      var r := DetachDeepLeaf(x);
      Replace(x, r);
      ring, owner := ring - {x}, owner - {x};
      DropSingletonValid(b, T(), x, r);
      SizesKept(b.t.node, b.t.node, node, x, r);
    }

    /** The loop of unlink_large_chunk: find some leaf below x, the right branches first, and
        the slot that points to it. */
    method FindDeepLeaf(x: int) returns (rp: int, right: bool, r: int)
      requires Inv(T()) && x in path
      ensures r == 0 ==> node[x].child0 == 0 && node[x].child1 == 0
      ensures r != 0 ==> (
        && InSubtree(T(), r, x) && r != x && UpFrom(T(), r)
        && node[r].child0 == 0 && node[r].child1 == 0
        && path[r] != [] && rp == node[r].parent && rp in node && right == Last(path[r]))
    {
      hide InRange;
      ghost var t := T();
      assert DownFrom(t, x);
      rp, right := x, true;
      r := node[x].child1;
      if r == 0 {
        right := false;
        r := node[x].child0;
      }
      if r != 0 {
        while node[r].child1 != 0 || node[r].child0 != 0
          invariant InSubtree(t, r, x) && |path[r]| > |path[x]|
          invariant rp in node && node[r].parent == rp && Last(path[r]) == right
          decreases TopBits(node[x].index) - |path[r]|
        {
          DepthBound(t, r);
          assert DownFrom(t, r);
          rp, right := r, node[r].child1 != 0;
          r := Child(node[r], right);
          DepthBound(t, r);
        }
        assert UpFrom(t, r);
      }
    }

    method DetachDeepLeaf(x: int) returns (r: int)
      requires Inv(T()) && x in path
      modifies this`node, this`path
      ensures Inv(T()) && x in path && UpFrom(T(), x)
      ensures r == 0 ==> T() == old(T()) && node[x].child0 == 0 && node[x].child1 == 0
      ensures r != 0 ==> MayTakeOver(T(), x, r) && r in old(path) && path == old(path) - {r}
      ensures OnlyChildWordsDiffer(old(node), node)
    {
      hide Inv, InRange, UpFrom;
      ghost var t := T();
      InvAt(t, x);
      var rp, right;
      rp, right, r := FindDeepLeaf(x);
      if r != 0 {
        node := node[rp := WithChild(node[rp], right, 0)];
        path := path - {r};
        DetachLeafInv(t, r);
        assert T() == DetachLeaf(t, r);
        RangeOfSubtree(t, x, r);
        DetachLeafKeepsPlace(t, r, x);
      }
    }

    /** Give the position of x to r, or clear it; x is no longer binned. */
    method Replace(x: int, r: int)
      requires Inv(T()) && x in path && UpFrom(T(), x)
      requires if r == 0 then node[x].child0 == 0 && node[x].child1 == 0 else MayTakeOver(T(), x, r)
      modifies this`node, this`treebins, this`treemap, this`path
      ensures Inv(T()) && RingWordsKept(old(node), node, x, r)
      ensures path.Keys == old(path).Keys - {x} + (if r == 0 then {} else {r})
    {
      hide Inv, InRange, UpFrom, RingWordsKept;
      ghost var t := T();
      InvAt(t, x);
      if r != 0 {
        TakeOverInv(t, x, r);
        TakeOverKept(t, x, r);
        ChildrenFacts(t, x, r);
        var xp := node[x].parent;
        RedirectSlot(x, r);
        MoveChildren(x, r, xp);
        node := node - {x};
        path := (path - {x})[r := path[x]];
        assert T() == TakeOver(t, x, r);
      } else {
        DetachLeafInv(t, x);
        DetachLeafWords(t, x);
        RedirectSlot(x, r);
        path := path - {x};
        assert T() == DetachLeaf(t, x);
        DropKeyInv(T(), x);
        node := node - {x};
      }
    }

    /** Point the root or child word that names x to r. */
    method RedirectSlot(x: int, r: int)
      requires Inv(T()) && x in path && UpFrom(T(), x)
      modifies this`node, this`treebins, this`treemap
      ensures T() == if old(path[x]) == [] then SetRoot(old(T()), old(node[x]).index, r)
                     else SetChild(old(T()), old(node[x]).parent, Last(path[x]), r)
    {
      var i, xp := node[x].index, node[x].parent;
      assert xp in path ==> DownFrom(T(), xp);
      assert i < NTREEBINS by { assert SizeOk(T(), x); }
      assert RootOk(T(), i);
      if x == treebins[i] {
        treebins := treebins[i := r];
        if r == 0 { treemap := treemap[i := false]; }
      } else {
        assert path[x] != [];
        assert node[xp].child0 != x <==> Last(path[x]);
        node := node[xp := WithChild(node[xp], node[xp].child0 != x, r)];
      }
    }

    method MoveChildren(x: int, r: int, xp: int)
      requires x in node && r in node && r != x && node[r].child0 == 0 && node[r].child1 == 0
      requires node[x].child0 != x && node[x].child0 != r && node[x].child1 != x && node[x].child1 != r
      requires node[x].child0 != 0 ==> node[x].child0 in node
      requires node[x].child1 != 0 ==> node[x].child1 in node
      modifies this`node
      ensures var c := old(node)[x];
        var base := old(node)[r := old(node)[r].(parent := xp, child0 := c.child0, child1 := c.child1)];
        node == Adopt(Adopt(base, c.child0, r), c.child1, r)
    {
      node := node[r := node[r].(parent := xp)];
      var c0 := node[x].child0;
      if c0 != 0 {
        node := node[r := node[r].(child0 := c0)];
        node := node[c0 := node[c0].(parent := r)];
      }
      var c1 := node[x].child1;
      if c1 != 0 {
        node := node[r := node[r].(child1 := c1)];
        node := node[c1 := node[c1].(parent := r)];
      }
    }

    // ---- Searching -------------------------------------------------------------------

    /** The search of tmalloc_large: the smallest binned chunk of at least nb bytes, or null. */
    method FindBestFit(nb: nat) returns (v: int, rsize: nat)
      requires Valid() && 256 <= nb < SIZE_T_RANGE
      ensures v == 0 ==> rsize == SIZE_T_RANGE - nb && forall y <- node :: node[y].size < nb
      ensures v != 0 ==> v in node && node[v].size >= nb && rsize == node[v].size - nb
      ensures v != 0 ==> forall y <- node | node[y].size >= nb :: node[v].size <= node[y].size
    {
      hide Rings.Valid, Inv, AllCovered, BinCovered;
      ValidParts(B());
      IndexInBounds(nb);
      ghost var small := nb < INDEX_LIMIT;
      var idx := ComputeTreeIndex(nb);
      var t := treebins[idx];
      v, rsize := 0, SIZE_T_RANGE - nb;
      if t != 0 {
        v, rsize, t := SearchBin(idx, nb);
      } else {
        EmptyBinCovered(T(), nb, idx);
      }
      if t == 0 && v == 0 {
        var j := NextMarked(idx + 1);
        if j < NTREEBINS { t := treebins[j]; MarkedRoot(T(), j); }
        if small { StartInNextBin(B(), nb, idx, j); }
      } else if small {
        StartInBin(B(), nb, idx, v, t);
      }
      v, rsize := SmallestBelow(nb, t, v, rsize);
      if small { NothingBetter(B(), nb, v, rsize); } else { NothingFits(B(), nb); }
    }

    /** The first loop of tmalloc_large: walk towards size nb in its bin; t is then the subtree
        with the smallest remaining candidates. */
    method SearchBin(idx: nat, nb: nat) returns (v: int, rsize: nat, t: int)
      requires Valid() && 256 <= nb < SIZE_T_RANGE && idx == ComputeTreeIndex(nb)
      requires idx < NTREEBINS && Keys(T()) && treebins[idx] != 0
      ensures Best(T(), nb, v, rsize)
      ensures v != 0 ==> node[v].index == idx
      ensures t != 0 ==> t in path && node[t].index == idx
      ensures nb < INDEX_LIMIT ==> BinCovered(T(), nb, idx, v, t)
      ensures nb < INDEX_LIMIT && t != 0 ==> rsize == 0 || AllFit(T(), nb, t)
    {
      hide Rings.Valid, Inv, InRange, Shifted, BinPending, BinCovered, AllFit, RightOf, ShiftToTop, Twice, TopBits;
      ghost var tr, small := T(), nb < INDEX_LIMIT;
      ValidParts(B());
      v, rsize, t := 0, SIZE_T_RANGE - nb, treebins[idx];
      var sizebits: nat := ShiftToTop(nb, idx);
      var rst := 0;
      SearchStart(B(), nb, idx);
      NoRst(tr, nb, t, idx);
      if small {
        TreeIndexCorrect(nb);
        ShiftStart(idx, nb);
      }
      while true
        invariant t != 0 && t in path && t in node && node[t].index == idx && rsize > 0
        invariant Best(tr, nb, v, rsize) && (v != 0 ==> node[v].index == idx)
        invariant rst != 0 ==> rst in path && node[rst].index == idx
        invariant small ==> Shifted(idx, path[t], nb, sizebits) && RightOf(tr, nb, t, rst, idx)
        invariant small ==> BinPending(tr, nb, idx, v, t, rst)
        decreases TopBits(idx) - |path[t]|
      {
        ghost var v0, rsize0, t0, rst0 := v, rsize, t, rst;
        NodeBound(B(), t);
        var trem := Remainder(node[t].size, nb);
        if trem < rsize {
          v := t;
          rsize := trem;
        }
        Visit(tr, nb, v0, rsize0, t0, v, rsize);
        if rsize == 0 {
          ExactFit(tr, nb, v, t, idx);
          return;
        }
        var right := sizebits >= SIGN_BIT;
        var rt := node[t].child1;
        t := Child(node[t], right);
        if rt != 0 && rt != t {
          rst := rt;
        }
        ChildDepth(B(), t0);
        if small {
          SearchStep(B(), nb, v0, t0, rst0, sizebits, v);
        }
        if t == 0 {
          t := rst;
          if small { SearchEnd(tr, nb, v, rst, idx); }
          return;
        }
        sizebits := Twice(sizebits);
      }
    }

    /** The least marked bin from `from` on: lj_ffs(left_bits(...) & treemap), or lj_ffs(treemap). */
    method NextMarked(from: nat) returns (j: nat)
      requires from <= NTREEBINS && |treemap| == NTREEBINS
      ensures from <= j <= NTREEBINS && (j < NTREEBINS ==> treemap[j])
      ensures forall i | from <= i < j :: !treemap[i]
    {
      j := from;
      while j < NTREEBINS && !treemap[j]
        invariant from <= j <= NTREEBINS && forall i | from <= i < j :: !treemap[i]
      {
        j := j + 1;
      }
    }

    /** The loop that walks leftmost children: improve v with the smallest chunk below t0. */
    method SmallestBelow(nb: nat, t0: int, v0: int, rsize0: nat) returns (v: int, rsize: nat)
      requires Valid() && 0 < nb < SIZE_T_RANGE && Keys(T()) && Best(T(), nb, v0, rsize0)
      requires t0 != 0 ==> t0 in path
      requires nb < INDEX_LIMIT && t0 != 0 ==> rsize0 == 0 || AllFit(T(), nb, t0)
      ensures Best(T(), nb, v, rsize)
      ensures nb < INDEX_LIMIT && AllCovered(T(), nb, v0, t0) ==> AllCovered(T(), nb, v, 0)
    {
      hide Rings.Valid, Inv, InRange, AllCovered, AllFit;
      ghost var tr := T();
      ghost var sure := nb < INDEX_LIMIT && AllCovered(T(), nb, v0, t0);
      ValidParts(B());
      if t0 != 0 { NodeBound(B(), t0); }
      v, rsize := v0, rsize0;
      var t := t0;
      while t != 0
        invariant t != 0 ==> t in path && t in node && |path[t]| <= 64
        invariant Best(tr, nb, v, rsize)
        invariant nb < INDEX_LIMIT && t != 0 ==> rsize == 0 || AllFit(tr, nb, t)
        invariant sure ==> AllCovered(tr, nb, v, t)
        decreases t != 0, if t != 0 then 64 - |path[t]| else 0
      {
        ghost var v1, rsize1, t1 := v, rsize, t;
        NodeBound(B(), t);
        var trem := Remainder(node[t].size, nb);
        if trem < rsize {
          rsize := trem;
          v := t;
        }
        Visit(tr, nb, v1, rsize1, t1, v, rsize);
        LeftmostFacts(tr, nb, t);
        t := LeftmostChild(node[t]);
        if t != 0 { NodeBound(B(), t); }
        if sure {
          VisitedDominated(tr, nb, v, rsize, rsize1, t1);
          SmallestStep(tr, nb, v1, t1, v);
        }
      }
    }

    /** ms->treemap != 0 */
    method AnyTree() returns (yes: bool)
      requires Valid()
      ensures yes <==> Chunks() != map[]
      ensures yes <==> exists i :: 0 <= i < |treemap| && treemap[i]
    {
      hide Rings.Valid;
      ValidParts(B());
      TreemapIff(B());
      ContentsEmpty(node);
      var j := NextMarked(0);
      yes := j < NTREEBINS;
    }

    /** The search of tmalloc_small: the smallest of all binned chunks; all are larger than nb. */
    method FindSmallest(nb: nat) returns (v: int, rsize: nat)
      requires Valid() && 0 < nb < 256 && exists i | 0 <= i < |treemap| :: treemap[i]
      ensures v in node && node[v].size >= nb && rsize == node[v].size - nb
      ensures forall y <- node :: node[v].size <= node[y].size
    {
      hide Rings.Valid, Inv, InRange, AllCovered, AllFit;
      ValidParts(B());
      var i := NextMarked(0);
      StartInFirstBin(B(), nb, 0, i);
      v := treebins[i];
      NodeBound(B(), v);
      rsize := node[v].size - nb;
      SmallRequest(B(), nb, v);
      LeftmostFacts(T(), nb, v);
      SmallestStep(T(), nb, 0, v, v);
      v, rsize := SmallestBelow(nb, LeftmostChild(node[v]), v, rsize);
      NothingBetter(B(), nb, v, rsize);
      SmallRequest(B(), nb, v);
    }
  }

  /** A node hangs below the root of its bin. */
  lemma {:induction false} RootAbove(t: Trie, n: int)
    requires Inv(t) && n in t.path
    ensures t.node[n].index < NTREEBINS && t.marked[t.node[n].index]
    decreases |t.path[n]|
  {
    assert UpFrom(t, n);
    if t.path[n] == [] {
      assert RootOk(t, t.node[n].index);
    } else {
      RootAbove(t, t.node[n].parent);
    }
  }

  /** treemap tells whether there are large free chunks at all. */
  lemma TreemapIff(b: Bins)
    requires Rings.Valid(b)
    ensures (exists i :: 0 <= i < |b.t.marked| && b.t.marked[i]) <==> b.t.node != map[]
  {
    forall i | 0 <= i < |b.t.marked| && b.t.marked[i] ensures b.t.node != map[] {
      assert RootOk(b.t, i);
    }
    forall x <- b.t.node ensures exists i :: 0 <= i < |b.t.marked| && b.t.marked[i] {
      NodeFacts(b, x);
      RootAbove(b.t, b.owner[x]);
    }
  }

  lemma ContentsEmpty(node: map<int, TChunk>)
    ensures Contents(node) == map[] <==> node == map[]
  {
    assert Contents(node).Keys == node.Keys;
  }

  lemma InvAt(t: Trie, n: int)
    requires Inv(t) && n in t.path
    ensures Keys(t) && UpFrom(t, n)
  {}

  lemma DepthBound(t: Trie, n: int)
    requires Inv(t) && n in t.path
    ensures |t.path[n]| <= TopBits(t.node[n].index)
  {
    assert SizeOk(t, n);
  }

  lemma DetachLeafKeepsPlace(t: Trie, r: int, x: int)
    requires Keys(t) && InSubtree(t, r, x) && r != x && UpFrom(t, r) && UpFrom(t, x)
    requires t.node[r].child0 == 0 && t.node[r].child1 == 0
    requires InRange(t.node[x].index, t.path[x], t.node[r].size) && Keys(DetachLeaf(t, r))
    ensures UpFrom(DetachLeaf(t, r), x) && MayTakeOver(DetachLeaf(t, r), x, r)
  {}

  lemma DetachLeafWords(t: Trie, x: int)
    requires Inv(t) && x in t.path && UpFrom(t, x) && t.node[x].child0 == 0 && t.node[x].child1 == 0
    ensures RingWordsKept(t.node, DetachLeaf(t, x).node - {x}, x, 0)
  {}

  lemma ChildrenFacts(t: Trie, x: int, r: int)
    requires Inv(t) && MayTakeOver(t, x, r)
    ensures t.node[r].child0 == 0 && t.node[r].child1 == 0
    ensures var c := t.node[x];
      && c.child0 != x && c.child0 != r && (c.child0 != 0 ==> c.child0 in t.node)
      && c.child1 != x && c.child1 != r && (c.child1 != 0 ==> c.child1 in t.node)
      && c.parent != x && c.parent != r
  {
    assert DownFrom(t, x);
  }

  ghost predicate OnlyChildWordsDiffer(node: map<int, TChunk>, node': map<int, TChunk>) {
    node'.Keys == node.Keys
    && forall y <- node :: node[y].(child0 := 0, child1 := 0) == node'[y].(child0 := 0, child1 := 0)
  }

  lemma PlaceInRing(b: Bins, x: int) returns (h: int, k: nat)
    requires Rings.Valid(b) && x in b.t.node && x !in b.t.path
    ensures h in b.ring && 0 < k < |b.ring[h]| && b.ring[h][k] == x
  {
    assert OwnerOk(b, x);
    h := b.owner[x];
    assert RingOk(b, h);
    k :| 0 <= k < |b.ring[h]| && b.ring[h][k] == x;
  }

  lemma AloneIsNode(b: Bins, x: int)
    requires Rings.Valid(b) && x in b.t.node && b.t.node[x].bk == x
    ensures x in b.t.path
  {
    if x !in b.t.path {
      var h, k := PlaceInRing(b, x);
      assert RingOk(b, h);
      RingNeighbours(b.t.node, b.ring[h], k);
      assert false;
    }
  }

  /** X->bk != X says exactly that the ring has another member. */
  lemma RingSizeByBk(b: Bins, x: int)
    requires Rings.Valid(b) && x in b.t.node && x in b.t.path
    ensures x in b.ring && RingOk(b, x) && b.ring[x] != [] && (b.t.node[x].bk != x <==> |b.ring[x]| > 1)
  {
    assert RingOk(b, x);
    RingNeighbours(b.t.node, b.ring[x], 0);
  }

  lemma TakeOverKept(t: Trie, x: int, r: int)
    requires Inv(t) && MayTakeOver(t, x, r)
    ensures RingWordsKept(t.node, TakeOver(t, x, r).node, x, r)
    ensures TakeOver(t, x, r).path.Keys == t.path.Keys - {x} + {r}
  {
    assert DownFrom(t, x);
    assert forall y <- t.path :: UpFrom(t, y);
    TakeOverDomain(t, x, r);
    hide Inv, MayTakeOver, TakeOver;
    forall y <- TakeOver(t, x, r).node
      ensures var c, d := t.node[y], TakeOver(t, x, r).node[y];
        && c.size == d.size && c.index == d.index && c.fd == d.fd && c.bk == d.bk
        && (y != r && c.parent == 0 ==> d.parent == 0)
    {
      TakeOverOtherWords(t, x, r, y);
    }
  }

  lemma TakeOverDomain(t: Trie, x: int, r: int)
    requires Keys(t) && MayTakeOver(t, x, r) && DownFrom(t, x)
    ensures TakeOver(t, x, r).node.Keys == t.node.Keys - {x}
    ensures TakeOver(t, x, r).path.Keys == t.path.Keys - {x} + {r}
  {}

  lemma SizesKept(node: map<int, TChunk>, mid: map<int, TChunk>, node': map<int, TChunk>, x: int, r: int)
    requires mid.Keys == node.Keys && forall y <- node :: mid[y].size == node[y].size
    requires RingWordsKept(mid, node', x, r)
    ensures Contents(node') == Contents(node) - {x}
  {
    var a, b := Contents(node'), Contents(node) - {x};
    assert a.Keys == b.Keys;
    assert forall y <- a :: a[y] == b[y];
  }
}
