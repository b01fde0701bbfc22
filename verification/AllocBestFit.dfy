/** Reasoning behind the best-fit searches of tmalloc_large and tmalloc_small: which tree nodes
    a search may still ignore. */
module BestFit {
  import opened Powers
  import opened TreeIndex
  import opened Trie
  import opened Rings

  /** chunksize(t) - nb in size_t arithmetic. */
  function Remainder(size: nat, nb: nat): int {
    if size >= nb then size - nb else size - nb + SIZE_T_RANGE
  }

  /** v is null or fits, and rsize is what it leaves over (or -nb, meaning nothing found). */
  ghost predicate Best(t: Trie, nb: nat, v: int, rsize: int)
    requires Keys(t)
  {
    && rsize <= SIZE_T_RANGE - nb
    && (v == 0 ==> rsize == SIZE_T_RANGE - nb)
    && (v != 0 ==> v in t.path && t.node[v].size >= nb && rsize == t.node[v].size - nb)
  }

  ghost predicate Dominated(t: Trie, v: int, y: int)
    requires Keys(t) && y in t.path
  {
    v != 0 && v in t.path && t.node[v].size <= t.node[y].size
  }

  /** The size where the interval of the subtree at n ends. */
  ghost function Hi(t: Trie, n: int): nat
    requires Keys(t) && n in t.path
  {
    var i, p := t.node[n].index, t.path[n];
    Lo(i, p) + Width(i, |p|)
  }

  ghost function LoOf(t: Trie, n: int): nat
    requires Keys(t) && n in t.path
  {
    Lo(t.node[n].index, t.path[n])
  }

  lemma SizeInInterval(t: Trie, n: int, y: int)
    requires Inv(t) && InSubtree(t, y, n)
    ensures LoOf(t, n) <= t.node[y].size < Hi(t, n)
  {
    RangeOfSubtree(t, n, y);
  }

  /** The children of n cut its interval in two, the left one first. */
  lemma ChildIntervals(t: Trie, n: int, c: int, b: bool)
    requires Inv(t) && n in t.path && c != 0 && c == Child(t.node[n], b)
    ensures c in t.path && t.node[c].index == t.node[n].index && t.path[c] == t.path[n] + [b]
    ensures LoOf(t, n) <= LoOf(t, c) && Hi(t, c) <= Hi(t, n)
    ensures if b then Hi(t, c) == Hi(t, n) else LoOf(t, c) == LoOf(t, n)
    ensures LoOf(t, c) == LoOf(t, n) + (if b then Width(t.node[n].index, |t.path[n]| + 1) else 0)
    ensures Hi(t, c) == LoOf(t, c) + Width(t.node[n].index, |t.path[n]| + 1)
    ensures |t.path[c]| <= TopBits(t.node[n].index)
  {
    assert DownFrom(t, n) && SizeOk(t, c);
    var i, p := t.node[n].index, t.path[n];
    assert Width(i, |p|) == 2 * Width(i, |p| + 1);
    assert (p + [b])[..|p|] == p;
  }

  // ---- One visited node --------------------------------------------------------------

  lemma Visit(t: Trie, nb: nat, v: int, rsize: int, n: int, v': int, rsize': int)
    requires Keys(t) && n in t.path && 0 < nb < SIZE_T_RANGE && Best(t, nb, v, rsize) && n != 0
    requires if Remainder(t.node[n].size, nb) < rsize
             then v' == n && rsize' == Remainder(t.node[n].size, nb)
             else v' == v && rsize' == rsize
    ensures Best(t, nb, v', rsize')
    ensures t.node[n].size >= nb && t.node[n].size < SIZE_T_RANGE ==> Dominated(t, v', n)
    ensures forall y <- t.path :: Dominated(t, v, y) ==> Dominated(t, v', y)
  {}

  // ---- The second loop: the smallest of a subtree --------------------------------------

  /** Searching on below c will not miss a chunk better than y. */
  ghost predicate Covered(t: Trie, v: int, c: int, y: int)
    requires Keys(t) && y in t.path
  {
    Dominated(t, v, y)
    || (c != 0 && c in t.path && (InSubtree(t, y, c) || t.node[y].size >= Hi(t, c)))
  }

  function LeftmostChild(c: TChunk): int {
    if c.child0 != 0 then c.child0 else c.child1
  }

  /** Going to the leftmost child after visiting n loses nothing. */
  lemma DescendLeft(t: Trie, nb: nat, v: int, n: int, v': int, y: int)
    requires Inv(t) && n in t.path && y in t.path && t.node[y].size >= nb
    requires Covered(t, v, n, y) && (Dominated(t, v, y) ==> Dominated(t, v', y))
    requires Dominated(t, v', n)
    ensures Covered(t, v', LeftmostChild(t.node[n]), y)
  {
    var c := LeftmostChild(t.node[n]);
    assert InSubtree(t, n, n);
    SizeInInterval(t, n, n);
    if c != 0 { ChildIntervals(t, n, c, t.node[n].child0 == 0); }
    if InSubtree(t, y, n) && y != n {
      Below(t, n, y);
      var b := t.path[y][|t.path[n]|];
      var d := Child(t.node[n], b);
      if d != c {
        ChildIntervals(t, n, d, true);
        SizeInInterval(t, d, y);
      }
    }
  }

  // ---- The first loop: towards nb ------------------------------------------------------

  /** Chunks of the bin of nb that may still be better: below c, or from the untaken right
      subtree rst upwards. */
  ghost predicate Pending(t: Trie, v: int, c: int, rst: int, y: int)
    requires Keys(t) && y in t.path
  {
    Dominated(t, v, y)
    || (c != 0 && InSubtree(t, y, c))
    || (rst != 0 && rst in t.path && (InSubtree(t, y, rst) || t.node[y].size >= Hi(t, rst)))
  }

  ghost predicate RightOf(t: Trie, nb: nat, c: int, rst: int, i: nat)
    requires Keys(t)
  {
    rst != 0 ==> (
      && rst in t.path && t.node[rst].index == i && LoOf(t, rst) >= nb
      && (c != 0 && c in t.path ==> LoOf(t, rst) >= Hi(t, c)))
  }

  /** The new rst after leaving n for its child on branch b. */
  function NextRst(c: TChunk, b: bool, rst: int): int {
    if c.child1 != 0 && c.child1 != Child(c, b) then c.child1 else rst
  }

  lemma StepRight(t: Trie, nb: nat, n: int, b: bool, rst: int)
    requires Inv(t) && n in t.path && RightOf(t, nb, n, rst, t.node[n].index)
    requires |t.path[n]| < TopBits(t.node[n].index) && InRange(t.node[n].index, t.path[n] + [b], nb)
    ensures RightOf(t, nb, Child(t.node[n], b), NextRst(t.node[n], b, rst), t.node[n].index)
  {
    var i, p, w := t.node[n].index, t.path[n], t.node[n];
    assert (p + [b])[..|p|] == p;
    if Child(w, b) != 0 { ChildIntervals(t, n, Child(w, b), b); }
    if w.child1 != 0 { ChildIntervals(t, n, w.child1, true); }
  }

  lemma StepPending(t: Trie, nb: nat, v: int, n: int, b: bool, rst: int, v': int, y: int)
    requires Inv(t) && n in t.path && RightOf(t, nb, n, rst, t.node[n].index)
    requires |t.path[n]| < TopBits(t.node[n].index) && InRange(t.node[n].index, t.path[n] + [b], nb)
    requires y in t.path && t.node[y].size >= nb && Pending(t, v, n, rst, y)
    requires Dominated(t, v, y) ==> Dominated(t, v', y)
    requires y == n ==> Dominated(t, v', y)
    ensures Pending(t, v', Child(t.node[n], b), NextRst(t.node[n], b, rst), y)
  {
    var i, p, w := t.node[n].index, t.path[n], t.node[n];
    assert (p + [b])[..|p|] == p;
    if w.child1 != 0 { ChildIntervals(t, n, w.child1, true); }
    if rst != 0 && InSubtree(t, y, rst) { SizeInInterval(t, rst, y); }
    if InSubtree(t, y, n) && y != n {
      Below(t, n, y);
      var e := t.path[y][|t.path[n]|];
      var d := Child(w, e);
      ChildIntervals(t, n, d, e);
      SizeInInterval(t, d, y);
    }
  }

  // ---- Several bins --------------------------------------------------------------------

  lemma {:induction false} MinSizeMono(i: nat, j: nat)
    requires i <= j
    ensures MinSize(i) <= MinSize(j)
    decreases j
  {
    if i < j {
      MinSizeMono(i, j - 1);
      assert Pow2((j - 1) / 2 + 8) == 2 * Pow2((j - 1) / 2 + 7);
      if j % 2 == 0 { assert j / 2 == (j - 1) / 2 + 1; }
    }
  }

  lemma NodeThere(t: Trie, y: int)
    requires Inv(t) && y in t.path
    ensures y in t.node
  {}

  /** All sizes of a bin lie between the minimum sizes of it and of the next bin. */
  lemma BinInterval(t: Trie, y: int)
    requires Inv(t) && y in t.path
    requires 256 <= t.node[y].size < INDEX_LIMIT && t.node[y].index == ComputeTreeIndex(t.node[y].size)
    ensures var i := t.node[y].index;
      && i < NTREEBINS && MinSize(i) <= t.node[y].size
      && (i < NTREEBINS - 1 ==> t.node[y].size < MinSize(i + 1))
  {
    hide Inv, ComputeTreeIndex, MinSize;
    NodeThere(t, y);
    TreeIndexCorrect(t.node[y].size);
  }

  lemma HiOfBin(t: Trie, n: int)
    requires Inv(t) && n in t.path && t.node[n].index < NTREEBINS - 1
    ensures Hi(t, n) <= MinSize(t.node[n].index + 1)
  {
    var i := t.node[n].index;
    assert SizeOk(t, n);
    LoNests(i, [], t.path[n]);
    IndexParts(i, i / 2);
  }

  /** What fits is not in a lower bin than nb's. */
  lemma FittingBins(t: Trie, nb: nat, y: int)
    requires Inv(t) && y in t.path && 256 <= nb < INDEX_LIMIT && t.node[y].size >= nb
    requires 256 <= t.node[y].size < INDEX_LIMIT && t.node[y].index == ComputeTreeIndex(t.node[y].size)
    ensures ComputeTreeIndex(nb) <= t.node[y].index
  {
    BinInterval(t, y);
    TreeIndexCorrect(nb);
    if t.node[y].index < ComputeTreeIndex(nb) {
      MinSizeMono(t.node[y].index + 1, ComputeTreeIndex(nb));
      assert false;
    }
  }

  /** A chunk of a higher bin is covered by any search position in a lower one. */
  lemma HigherBinCovered(t: Trie, v: int, c: int, y: int)
    requires Inv(t) && y in t.path && c != 0 && c in t.path && t.node[c].index < t.node[y].index
    requires 256 <= t.node[y].size < INDEX_LIMIT && t.node[y].index == ComputeTreeIndex(t.node[y].size)
    ensures Covered(t, v, c, y)
  {
    hide InSubtree, MinSize, ComputeTreeIndex, Dominated, Hi, SizeOk, DownFrom, UpFrom, RootOk;
    BinInterval(t, y);
    HiOfBin(t, c);
    MinSizeMono(t.node[c].index + 1, t.node[y].index);
  }

  // ---- The states of the search, for the whole content of the bins ----------------------

  lemma SizeBound(b: Bins, x: int)
    requires Valid(b) && x in b.t.node
    ensures x != 0 && Keys(b.t)
    ensures SizeIndexed(b.t.node[x])
  {
    assert OwnerOk(b, x);
  }

  lemma NodeBound(b: Bins, y: int)
    requires Valid(b) && y in b.t.path
    ensures Keys(b.t) && SizeIndexed(b.t.node[y]) && |b.t.path[y]| <= TopBits(b.t.node[y].index) <= 64
  {
    assert y in b.owner;
    assert SizeOk(b.t, y);
    IndexInBounds(b.t.node[y].size);
  }

  /** Everything below n is large enough. */
  ghost predicate AllFit(t: Trie, nb: nat, n: int)
    requires Keys(t)
  {
    forall y <- t.path | InSubtree(t, y, n) :: t.node[y].size >= nb
  }

  /** Continuing at n cannot miss the best chunk of bin idx. */
  ghost predicate BinCovered(t: Trie, nb: nat, idx: nat, v: int, n: int)
    requires Keys(t)
  {
    forall y <- t.path | t.node[y].index == idx && t.node[y].size >= nb :: Covered(t, v, n, y)
  }

  /** Continuing at n cannot miss the best chunk of all bins. */
  ghost predicate AllCovered(t: Trie, nb: nat, v: int, n: int)
    requires Keys(t)
  {
    forall y <- t.path | t.node[y].size >= nb :: Covered(t, v, n, y)
  }

  ghost predicate BinPending(t: Trie, nb: nat, idx: nat, v: int, n: int, rst: int)
    requires Keys(t)
  {
    forall y <- t.path | t.node[y].index == idx && t.node[y].size >= nb :: Pending(t, v, n, rst, y)
  }

  lemma SearchStart(b: Bins, nb: nat, idx: nat)
    requires Valid(b) && idx < NTREEBINS && b.t.root[idx] != 0
    ensures var n := b.t.root[idx];
      n in b.t.path && b.t.node[n].index == idx && b.t.path[n] == [] && BinPending(b.t, nb, idx, 0, n, 0)
  {
    var n := b.t.root[idx];
    assert RootOk(b.t, idx);
    forall y <- b.t.path | b.t.node[y].index == idx ensures InSubtree(b.t, y, n) {
      BelowRoot(b.t, y);
    }
  }

  lemma SearchStep(b: Bins, nb: nat, v: int, n: int, rst: int, sizebits: nat, v': int)
    requires Valid(b) && n in b.t.path && Shifted(b.t.node[n].index, b.t.path[n], nb, sizebits)
    requires RightOf(b.t, nb, n, rst, b.t.node[n].index) && BinPending(b.t, nb, b.t.node[n].index, v, n, rst)
    requires forall y <- b.t.path :: Dominated(b.t, v, y) ==> Dominated(b.t, v', y)
    requires b.t.node[n].size >= nb ==> Dominated(b.t, v', n)
    requires b.t.node[n].size != nb
    ensures var i, right := b.t.node[n].index, sizebits >= SIGN_BIT;
      var c, rst' := Child(b.t.node[n], right), NextRst(b.t.node[n], right, rst);
      && RightOf(b.t, nb, c, rst', i) && BinPending(b.t, nb, i, v', c, rst')
      && (c != 0 ==> (
            && c in b.t.path && b.t.node[c].index == i && b.t.path[c] == b.t.path[n] + [right]
            && Shifted(i, b.t.path[c], nb, Twice(sizebits))))
  {
    var i, right := b.t.node[n].index, sizebits >= SIGN_BIT;
    assert SizeOk(b.t, n);
    ShiftStep2(i, b.t.path[n], nb, b.t.node[n].size, sizebits);
    StepRight(b.t, nb, n, right, rst);
    if Child(b.t.node[n], right) != 0 { ChildIntervals(b.t, n, Child(b.t.node[n], right), right); }
    var c, rst' := Child(b.t.node[n], right), NextRst(b.t.node[n], right, rst);
    forall y <- b.t.path | b.t.node[y].index == i && b.t.node[y].size >= nb
      ensures Pending(b.t, v', c, rst', y)
    {
      StepPending(b.t, nb, v, n, right, rst, v', y);
    }
  }

  /** ShiftStep, above a node whose size differs. */
  lemma ShiftStep2(i: nat, p: seq<bool>, s: nat, other: nat, k: nat)
    requires Shifted(i, p, s, k) && InRange(i, p, other) && s != other
    ensures |p| < TopBits(i)
    ensures Shifted(i, p + [k >= SIGN_BIT], s, Twice(k))
  {
    assert |p| < TopBits(i);
    ShiftStep(i, p, s, k);
  }

  /** Out of nodes on the way to nb: the smallest remaining candidates are below rst. */
  lemma SearchEnd(t: Trie, nb: nat, v: int, rst: int, idx: nat)
    requires Inv(t) && RightOf(t, nb, 0, rst, idx) && BinPending(t, nb, idx, v, 0, rst)
    ensures BinCovered(t, nb, idx, v, rst) && AllFit(t, nb, rst)
  {
    forall y <- t.path | InSubtree(t, y, rst) ensures t.node[y].size >= nb {
      SizeInInterval(t, rst, y);
    }
  }

  lemma ExactFit(t: Trie, nb: nat, v: int, n: int, idx: nat)
    requires Keys(t) && v in t.path && v != 0 && t.node[v].size == nb
    ensures BinCovered(t, nb, idx, v, n)
  {}

  lemma EmptyBinCovered(t: Trie, nb: nat, idx: nat)
    requires Inv(t) && idx < NTREEBINS && t.root[idx] == 0
    ensures BinCovered(t, nb, idx, 0, 0)
  {
    forall y <- t.path ensures t.node[y].index != idx {
      BelowRoot(t, y);
    }
  }

  lemma MarkedRoot(t: Trie, j: nat)
    requires Inv(t) && j < NTREEBINS && t.marked[j]
    ensures t.root[j] in t.path && t.root[j] != 0
  {
    assert RootOk(t, j);
  }

  lemma NoRst(t: Trie, nb: nat, n: int, idx: nat)
    requires Keys(t)
    ensures RightOf(t, nb, n, 0, idx)
  {}

  /** The children of a node are one level deeper, and levels are bounded. */
  lemma ChildDepth(b: Bins, n: int)
    requires Valid(b) && n in b.t.path
    ensures forall c | c == b.t.node[n].child0 || c == b.t.node[n].child1 :: c != 0 ==> (
      && c in b.t.path && b.t.node[c].index == b.t.node[n].index
      && |b.t.path[n]| < |b.t.path[c]| <= TopBits(b.t.node[n].index))
  {
    var c0, c1 := b.t.node[n].child0, b.t.node[n].child1;
    if c0 != 0 { ChildIntervals(b.t, n, c0, false); }
    if c1 != 0 { ChildIntervals(b.t, n, c1, true); }
  }

  lemma VisitedDominated(t: Trie, nb: nat, v: int, rsize: int, rsize0: int, n: int)
    requires Keys(t) && n in t.path && 0 < nb && rsize <= rsize0
    requires Best(t, nb, v, rsize) && rsize <= Remainder(t.node[n].size, nb)
    requires nb < INDEX_LIMIT && (rsize0 == 0 || AllFit(t, nb, n))
    requires t.node[n].size < INDEX_LIMIT
    ensures Dominated(t, v, n) || (rsize0 == 0 && forall y <- t.path | t.node[y].size >= nb :: Dominated(t, v, y))
  {
    assert InSubtree(t, n, n);
  }

  /** A small request fits every tree chunk. */
  lemma SmallRequest(b: Bins, nb: nat, n: int)
    requires Valid(b) && nb < 256 && Keys(b.t)
    ensures AllFit(b.t, nb, n) && forall y <- b.t.node :: b.t.node[y].size >= nb
  {
    forall y <- b.t.node ensures b.t.node[y].size >= nb { SizeBound(b, y); }
  }

  /** No chunk of another bin is better than what the bin of nb holds. */
  lemma StartInBin(b: Bins, nb: nat, idx: nat, v: int, n: int)
    requires Valid(b) && 256 <= nb < INDEX_LIMIT && idx == ComputeTreeIndex(nb) && BinCovered(b.t, nb, idx, v, n)
    requires n != 0 ==> n in b.t.path && b.t.node[n].index == idx
    requires v != 0 ==> v in b.t.path && b.t.node[v].index == idx
    requires n != 0 || v != 0
    ensures AllCovered(b.t, nb, v, n)
  {
    forall y <- b.t.path | b.t.node[y].size >= nb ensures Covered(b.t, v, n, y) {
      NodeBound(b, y);
      FittingBins(b.t, nb, y);
      if b.t.node[y].index > idx {
        if n != 0 {
          HigherBinCovered(b.t, v, n, y);
        } else {
          NodeBound(b, v);
          HigherBinLarger(b.t, v, y);
        }
      }
    }
  }

  lemma HigherBinLarger(t: Trie, v: int, y: int)
    requires Inv(t) && v in t.path && y in t.path && t.node[v].index < t.node[y].index
    requires SizeIndexed(t.node[v]) && SizeIndexed(t.node[y])
    ensures t.node[v].size <= t.node[y].size
  {
    BinInterval(t, v);
    BinInterval(t, y);
    MinSizeMono(t.node[v].index + 1, t.node[y].index);
  }

  /** Nothing in the bin of nb: the root of the next non-empty bin covers everything. */
  lemma StartInNextBin(b: Bins, nb: nat, idx: nat, j: nat)
    requires Valid(b) && 256 <= nb < INDEX_LIMIT && idx == ComputeTreeIndex(nb) && BinCovered(b.t, nb, idx, 0, 0)
    requires idx < j <= NTREEBINS && forall i | idx < i < j :: !b.t.marked[i]
    requires j < NTREEBINS ==> b.t.marked[j]
    ensures AllCovered(b.t, nb, 0, if j < NTREEBINS then b.t.root[j] else 0)
    ensures j < NTREEBINS ==> b.t.root[j] in b.t.path && AllFit(b.t, nb, b.t.root[j])
  {
    if j < NTREEBINS {
      StartInFirstBin(b, nb, idx + 1, j);
      HigherBinFits(b, nb, idx, b.t.root[j]);
    }
    forall y <- b.t.path | b.t.node[y].size >= nb
      ensures Covered(b.t, 0, if j < NTREEBINS then b.t.root[j] else 0, y)
    {
      NodeBound(b, y);
      FittingBins(b.t, nb, y);
      NodeIsMarked(b.t, y);
    }
  }

  lemma NodeIsMarked(t: Trie, y: int)
    requires Inv(t) && y in t.path
    ensures t.node[y].index < NTREEBINS && t.marked[t.node[y].index]
  {
    BelowRoot(t, y);
    assert RootOk(t, t.node[y].index);
  }

  lemma HigherBinFits(b: Bins, nb: nat, idx: nat, n: int)
    requires Valid(b) && 256 <= nb < INDEX_LIMIT && idx == ComputeTreeIndex(nb)
    requires n in b.t.path && b.t.node[n].index > idx
    ensures AllFit(b.t, nb, n)
  {
    forall y <- b.t.path | InSubtree(b.t, y, n) ensures b.t.node[y].size >= nb {
      NodeBound(b, y);
      HigherIndexLarger(nb, b.t.node[y].size);
    }
  }

  lemma HigherIndexLarger(nb: nat, s: nat)
    requires 256 <= nb < INDEX_LIMIT && 256 <= s < INDEX_LIMIT
    requires ComputeTreeIndex(nb) < ComputeTreeIndex(s)
    ensures nb <= s
  {
    TreeIndexCorrect(nb);
    TreeIndexCorrect(s);
    MinSizeMono(ComputeTreeIndex(nb) + 1, ComputeTreeIndex(s));
  }

  /** The root of the first non-empty bin from `from` on covers all those bins. */
  lemma StartInFirstBin(b: Bins, nb: nat, from: nat, j: nat)
    requires Valid(b) && from <= j < NTREEBINS && b.t.marked[j] && forall i | from <= i < j :: !b.t.marked[i]
    ensures b.t.root[j] in b.t.path && b.t.node[b.t.root[j]].index == j
    ensures forall y <- b.t.path | b.t.node[y].index >= from :: Covered(b.t, 0, b.t.root[j], y)
  {
    assert RootOk(b.t, j);
    forall y <- b.t.path | b.t.node[y].index >= from ensures Covered(b.t, 0, b.t.root[j], y) {
      NodeBound(b, y);
      NodeIsMarked(b.t, y);
      BelowRoot(b.t, y);
      if b.t.node[y].index > j { HigherBinCovered(b.t, 0, b.t.root[j], y); }
    }
  }

  lemma LeftmostFacts(t: Trie, nb: nat, n: int)
    requires Inv(t) && n in t.path
    ensures var c := LeftmostChild(t.node[n]); c != 0 ==>
      c in t.path && |t.path[c]| == |t.path[n]| + 1 && (AllFit(t, nb, n) ==> AllFit(t, nb, c))
  {
    var c := LeftmostChild(t.node[n]);
    if c != 0 { ChildIntervals(t, n, c, t.node[n].child0 == 0); }
  }

  lemma SmallestStep(t: Trie, nb: nat, v: int, n: int, v': int)
    requires Inv(t) && n in t.path && AllCovered(t, nb, v, n)
    requires forall y <- t.path :: Dominated(t, v, y) ==> Dominated(t, v', y)
    requires Dominated(t, v', n) || forall y <- t.path | t.node[y].size >= nb :: Dominated(t, v', y)
    ensures AllCovered(t, nb, v', LeftmostChild(t.node[n]))
  {
    if Dominated(t, v', n) {
      SmallestStepHere(t, nb, v, n, v');
    }
  }

  lemma SmallestStepHere(t: Trie, nb: nat, v: int, n: int, v': int)
    requires Inv(t) && n in t.path && AllCovered(t, nb, v, n)
    requires forall y <- t.path :: Dominated(t, v, y) ==> Dominated(t, v', y)
    requires Dominated(t, v', n)
    ensures AllCovered(t, nb, v', LeftmostChild(t.node[n]))
  {
    forall y <- t.path | t.node[y].size >= nb ensures Covered(t, v', LeftmostChild(t.node[n]), y) {
      DescendLeft(t, nb, v, n, v', y);
    }
  }

  /** With nothing left to search, v is the best of all binned chunks, ring members included. */
  lemma NothingBetter(b: Bins, nb: nat, v: int, rsize: int)
    requires Valid(b) && AllCovered(b.t, nb, v, 0) && Best(b.t, nb, v, rsize)
    ensures v == 0 ==> forall y <- b.t.node :: b.t.node[y].size < nb
    ensures v != 0 ==> forall y <- b.t.node | b.t.node[y].size >= nb :: b.t.node[v].size <= b.t.node[y].size
  {
    forall y <- b.t.node | b.t.node[y].size >= nb
      ensures v != 0 && v in b.t.path && b.t.node[v].size <= b.t.node[y].size
    {
      assert OwnerOk(b, y);
    }
  }

  lemma NothingFits(b: Bins, nb: nat)
    requires Valid(b) && nb >= INDEX_LIMIT
    ensures forall y <- b.t.node :: b.t.node[y].size < nb
  {
    forall y <- b.t.node ensures b.t.node[y].size < nb { SizeBound(b, y); }
  }
}
