/** Rings of equal-sized chunks hung below the tree nodes, and the whole content of the tree
    bins as one value. */
module Rings {
  import opened TreeIndex
  import opened Trie

  datatype Bins = Bins(
    t: Trie,
    ring: map<int, seq<int>>,   // per tree node: the ring in fd order, the node first
    owner: map<int, int>)       // per chunk: the tree node of its ring

  function Next(k: nat, n: nat): nat {
    if k + 1 == n then 0 else k + 1
  }

  ghost predicate Distinct(r: seq<int>) {
    forall i, j | 0 <= i < j < |r| :: r[i] != r[j]
  }

  ghost predicate LinkedAt(node: map<int, TChunk>, r: seq<int>, k: nat)
    requires k < |r|
  {
    var x, y := r[k], r[Next(k, |r|)];
    x in node && y in node && node[x].fd == y && node[y].bk == x
  }

  /** The fd and bk words of the members of r close it to a ring. */
  ghost predicate Linked(node: map<int, TChunk>, r: seq<int>) {
    Distinct(r) && forall k | 0 <= k < |r| :: LinkedAt(node, r, k)
  }

  ghost predicate RingOk(b: Bins, n: int)
    requires n in b.ring
  {
    var r := b.ring[n];
    && r != [] && r[0] == n && Linked(b.t.node, r)
    && (forall k | 0 <= k < |r| :: r[k] in b.owner && b.owner[r[k]] == n)
  }

  ghost predicate OwnerOk(b: Bins, x: int)
    requires x in b.owner && x in b.t.node
  {
    var n := b.owner[x];
    && n in b.ring && n in b.t.node && x in b.ring[n]
    && b.t.node[x].size == b.t.node[n].size && b.t.node[x].index == b.t.node[n].index
    && (x != n ==> b.t.node[x].parent == 0)
  }

  ghost predicate SizeIndexed(c: TChunk) {
    256 <= c.size < INDEX_LIMIT && c.index == ComputeTreeIndex(c.size)
  }

  ghost predicate RingsOk(b: Bins) {
    && b.ring.Keys == b.t.path.Keys && b.owner.Keys == b.t.node.Keys
    && (forall n <- b.ring :: RingOk(b, n))
    && (forall x <- b.owner :: OwnerOk(b, x) && SizeIndexed(b.t.node[x]))
  }

  ghost predicate Valid(b: Bins) {
    Inv(b.t) && RingsOk(b)
  }

  lemma ValidParts(b: Bins)
    requires Valid(b)
    ensures Inv(b.t) && Keys(b.t)
  {}

  /** The abstract content: chunk addresses with their sizes. */
  function Contents(node: map<int, TChunk>): map<int, nat> {
    map x <- node :: node[x].size
  }

  lemma NodeFacts(b: Bins, x: int)
    requires Valid(b) && x in b.t.node
    ensures b.owner[x] in b.t.path && b.owner[b.owner[x]] == b.owner[x]
    ensures x in b.t.path <==> b.owner[x] == x
    ensures x in b.t.path <==> b.t.node[x].parent != 0
  {
    assert OwnerOk(b, x);
    var n := b.owner[x];
    assert RingOk(b, n) && UpFrom(b.t, n);
    if x in b.t.path {
      assert RingOk(b, x) && UpFrom(b.t, x);
    }
  }

  // ---- Linking and unlinking in a ring, on the words alone ---------------------------

  function SetFd(node: map<int, TChunk>, x: int, v: int): map<int, TChunk>
    requires x in node
  {
    node[x := node[x].(fd := v)]
  }

  function SetBk(node: map<int, TChunk>, x: int, v: int): map<int, TChunk>
    requires x in node
  {
    node[x := node[x].(bk := v)]
  }

  /** Insert x behind the head of the ring r. */
  function LinkAfter(node: map<int, TChunk>, h: int, x: int, c: TChunk): map<int, TChunk>
    requires h in node && node[h].fd in node
  {
    var f := node[h].fd;
    SetBk(SetFd(node, h, x), f, x)[x := c.(fd := f, bk := h)]
  }

  function UnlinkWords(node: map<int, TChunk>, x: int): map<int, TChunk>
    requires x in node && node[x].fd in node && node[x].bk in node
  {
    var f, r := node[x].fd, node[x].bk;
    SetFd(SetBk(node, f, r), r, f)
  }

  lemma LinkAfterSame(node: map<int, TChunk>, h: int, x: int, c: TChunk)
    requires h in node && node[h].fd in node && x !in node
    ensures var node' := LinkAfter(node, h, x, c);
      node'.Keys == node.Keys + {x} && node'[x].child0 == c.child0 && node'[x].child1 == c.child1
      && forall y <- node :: SameTreeWords(node[y], node'[y])
  {}

  lemma UnlinkWordsSame(node: map<int, TChunk>, x: int)
    requires x in node && node[x].fd in node && node[x].bk in node
    ensures var node' := UnlinkWords(node, x);
      node'.Keys == node.Keys && forall y <- node :: SameTreeWords(node[y], node'[y])
  {}

  lemma LinkAfterLinked(node: map<int, TChunk>, r: seq<int>, x: int, c: TChunk)
    requires r != [] && Linked(node, r) && x !in node
    ensures r[0] in node && node[r[0]].fd in node
    ensures Linked(LinkAfter(node, r[0], x, c), [r[0], x] + r[1..])
  {
    assert LinkedAt(node, r, 0);
    var r' := [r[0], x] + r[1..];
    forall k | 0 <= k < |r| ensures r[k] != x { assert LinkedAt(node, r, k); }
    assert forall k | 2 <= k < |r'| :: r'[k] == r[k - 1];
    forall k | 0 <= k < |r'| ensures LinkedAt(LinkAfter(node, r[0], x, c), r', k) {
      if k >= 2 {
        assert LinkedAt(node, r, k - 1);
      }
    }
  }

  function Without(r: seq<int>, k: nat): seq<int>
    requires k < |r|
  {
    r[..k] + r[k + 1..]
  }

  function Before(k: nat, n: nat): nat
    requires k < n
  {
    if k == 0 then n - 1 else k - 1
  }

  lemma RingNeighbours(node: map<int, TChunk>, r: seq<int>, k: nat)
    requires Linked(node, r) && k < |r|
    ensures r[k] in node && node[r[k]].fd in node && node[r[k]].bk in node
    ensures node[r[k]].fd == r[Next(k, |r|)] && node[r[k]].bk == r[Before(k, |r|)]
  {
    assert LinkedAt(node, r, k);
    assert LinkedAt(node, r, Before(k, |r|)) && Next(Before(k, |r|), |r|) == k;
  }

  lemma UnlinkLinked(node: map<int, TChunk>, r: seq<int>, k: nat)
    requires Linked(node, r) && k < |r| && |r| > 1
    ensures r[k] in node && node[r[k]].fd in node && node[r[k]].bk in node
    ensures Linked(UnlinkWords(node, r[k]), Without(r, k))
  {
    RingNeighbours(node, r, k);
    forall j | 0 <= j < |r| - 1 ensures LinkedAt(UnlinkWords(node, r[k]), Without(r, k), j) {
      UnlinkAt(node, r, k, j);
    }
  }

  lemma UnlinkAt(node: map<int, TChunk>, r: seq<int>, k: nat, j: nat)
    requires Distinct(r) && k < |r| && |r| > 1 && j < |r| - 1
    requires r[k] in node && node[r[k]].fd in node && node[r[k]].bk in node
    requires node[r[k]].fd == r[Next(k, |r|)] && node[r[k]].bk == r[Before(k, |r|)]
    requires forall i | 0 <= i < |r| :: LinkedAt(node, r, i)
    ensures LinkedAt(UnlinkWords(node, r[k]), Without(r, k), j)
  {
    var r' := Without(r, k);
    var i := if j < k then j else j + 1;
    var i' := if Next(j, |r'|) < k then Next(j, |r'|) else Next(j, |r'|) + 1;
    assert r'[j] == r[i] && r'[Next(j, |r'|)] == r[i'];
    assert i' == (if Next(i, |r|) == k then Next(k, |r|) else Next(i, |r|));
    assert LinkedAt(node, r, i) && LinkedAt(node, r, k);
    assert Next(i, |r|) == k ==> i == Before(k, |r|);
  }

  /** A ring may be read from its last member. */
  lemma RotateLinked(node: map<int, TChunk>, r: seq<int>)
    requires r != [] && Linked(node, r)
    ensures Linked(node, [r[|r| - 1]] + r[..|r| - 1])
  {
    var r' := [r[|r| - 1]] + r[..|r| - 1];
    forall j | 0 <= j < |r'| ensures LinkedAt(node, r', j) {
      var i := Before(j, |r|);
      assert r'[j] == r[i] && r'[Next(j, |r'|)] == r[Next(i, |r|)];
      assert LinkedAt(node, r, i);
    }
  }

  /** A ring does not notice changes outside its own fd and bk words. */
  lemma LinkedFrame(node: map<int, TChunk>, node': map<int, TChunk>, r: seq<int>)
    requires Linked(node, r)
    requires forall y | y in r && y in node :: y in node' && node'[y].fd == node[y].fd && node'[y].bk == node[y].bk
    ensures Linked(node', r)
  {
    forall k | 0 <= k < |r| ensures LinkedAt(node', r, k) {
      assert LinkedAt(node, r, k);
      assert r[k] in r && r[Next(k, |r|)] in r;
    }
  }

  // ---- Whole-bin steps ---------------------------------------------------------------

  ghost predicate NewChunk(b: Bins, x: int, c: TChunk) {
    x > 0 && x !in b.t.node && c.child0 == 0 && c.child1 == 0 && SizeIndexed(c)
  }

  /** x becomes a tree node with a ring of its own. */
  ghost function WithSingleton(b: Bins, t: Trie, x: int): Bins {
    Bins(t, b.ring[x := [x]], b.owner[x := x])
  }

  lemma WithSingletonValid(b: Bins, t: Trie, x: int, c: TChunk)
    requires Valid(b) && NewChunk(b, x, c) && c.fd == x && c.bk == x
    requires Inv(t) && t.path.Keys == b.t.path.Keys + {x} && t.node.Keys == b.t.node.Keys + {x}
    requires t.node[x] == c
    requires forall y <- b.t.node :: SameRingWords(b.t.node[y], t.node[y])
    ensures Valid(WithSingleton(b, t, x))
  {
    hide Inv;
    var b' := WithSingleton(b, t, x);
    forall n <- b'.ring ensures RingOk(b', n) {
      if n == x {
        assert LinkedAt(t.node, [x], 0);
      } else {
        assert RingOk(b, n);
        LinkedFrame(b.t.node, t.node, b.ring[n]);
      }
    }
    forall y <- b'.owner ensures OwnerOk(b', y) && SizeIndexed(t.node[y]) {
      if y != x { assert OwnerOk(b, y) && SizeIndexed(b.t.node[y]); }
    }
  }

  /** The two places where a new tree node goes. */
  lemma PlantedValid(b: Bins, x: int, c: TChunk)
    requires c.fd == x && c.bk == x && c.index < NTREEBINS && NewChunk(b, x, c) && Fresh(b.t, x, c, BinSlot(c.index))
    requires InRange(c.index, [], c.size) && c.index < |b.t.root| && b.t.root[c.index] == 0 && c.index < |b.t.marked|
    requires Valid(b)
    ensures Valid(WithSingleton(b, InsertRoot(b.t, x, c), x))
  {
    hide Valid, Inv, InRange, SizeIndexed;
    ValidParts(b);
    InsertRootInv(b.t, x, c);
    WithSingletonValid(b, InsertRoot(b.t, x, c), x, c);
  }

  lemma HungValid(b: Bins, x: int, c: TChunk, n: int, right: bool)
    requires n in b.t.path && n in b.t.node && Fresh(b.t, x, c, n) && c.index == b.t.node[n].index
    requires Child(b.t.node[n], right) == 0 && InRange(c.index, b.t.path[n] + [right], c.size)
    requires c.fd == x && c.bk == x && NewChunk(b, x, c)
    requires Valid(b)
    ensures Valid(WithSingleton(b, InsertLeaf(b.t, x, c, n, right), x))
  {
    hide Valid, Inv, InRange, SizeIndexed;
    ValidParts(b);
    InsertLeafInv(b.t, x, c, n, right);
    WithSingletonValid(b, InsertLeaf(b.t, x, c, n, right), x, c);
  }

  /** Equal as far as rings are concerned: only the children differ. */
  ghost predicate SameRingWords(c: TChunk, d: TChunk) {
    c.size == d.size && c.index == d.index && c.fd == d.fd && c.bk == d.bk
    && (c.parent == 0 ==> d.parent == 0)
  }

  ghost function JoinRing(b: Bins, h: int, x: int, c: TChunk): Bins
    requires h in b.t.node && b.t.node[h].fd in b.t.node && h in b.ring && b.ring[h] != []
  {
    Bins(b.t.(node := LinkAfter(b.t.node, h, x, c)),
         b.ring[h := [h, x] + b.ring[h][1..]], b.owner[x := h])
  }

  lemma JoinRingValid(b: Bins, h: int, x: int, c: TChunk)
    requires Valid(b) && NewChunk(b, x, c) && c.parent == 0
    requires h in b.t.path && b.t.node[h].size == c.size
    ensures RingOk(b, h) && b.t.node[h].fd in b.t.node
    ensures Valid(JoinRing(b, h, x, c))
  {
    assert RingOk(b, h);
    LinkAfterLinked(b.t.node, b.ring[h], x, c);
    JoinRingTrie(b, h, x, c);
    JoinRingRings(b, h, x, c);
  }

  lemma JoinRingTrie(b: Bins, h: int, x: int, c: TChunk)
    requires Valid(b) && NewChunk(b, x, c) && c.parent == 0
    requires h in b.ring && RingOk(b, h) && h in b.t.node && b.t.node[h].fd in b.t.node
    ensures Inv(JoinRing(b, h, x, c).t)
  {
    var t' := JoinRing(b, h, x, c).t;
    LinkAfterSame(b.t.node, h, x, c);
    SameWords(b.t, t');
  }

  lemma JoinRingRings(b: Bins, h: int, x: int, c: TChunk)
    requires Valid(b) && NewChunk(b, x, c) && c.parent == 0
    requires h in b.t.path && b.t.node[h].size == c.size && RingOk(b, h) && b.t.node[h].fd in b.t.node
    requires Linked(LinkAfter(b.t.node, h, x, c), [h, x] + b.ring[h][1..])
    ensures RingsOk(JoinRing(b, h, x, c))
  {
    hide Inv, Linked, RingOk, OwnerOk, SizeIndexed;
    ValidParts(b);
    RingHead(b, h);
    var b' := JoinRing(b, h, x, c);
    forall n <- b'.ring ensures RingOk(b', n) {
      JoinRingRing(b, h, x, c, n);
    }
    forall y <- b'.owner ensures OwnerOk(b', y) && SizeIndexed(b'.t.node[y]) {
      assert OwnerOk(b, h) && SizeIndexed(b.t.node[h]);
      assert y != x ==> OwnerOk(b, y) && SizeIndexed(b.t.node[y]);
      JoinRingOwner(b, h, x, c, y);
    }
  }

  lemma RingHead(b: Bins, h: int)
    requires h in b.ring && RingOk(b, h)
    ensures b.ring[h] != [] && b.ring[h][0] == h
  {}

  lemma JoinRingRing(b: Bins, h: int, x: int, c: TChunk, n: int)
    requires h in b.ring && h in b.t.node && RingOk(b, h) && x !in b.t.node && x !in b.ring
    requires b.owner.Keys == b.t.node.Keys
    requires n in b.ring && RingOk(b, n) && b.t.node[h].fd in b.t.node
    requires Linked(LinkAfter(b.t.node, h, x, c), [h, x] + b.ring[h][1..])
    ensures RingOk(JoinRing(b, h, x, c), n)
  {
    var b' := JoinRing(b, h, x, c);
    if n != h {
      DisjointRings(b, h, n);
      LinkedFrame(b.t.node, b'.t.node, b.ring[n]);
    } else {
      assert forall k | 2 <= k < |b'.ring[h]| :: b'.ring[h][k] == b.ring[h][k - 1];
    }
  }

  lemma JoinRingOwner(b: Bins, h: int, x: int, c: TChunk, y: int)
    requires h in b.ring && h in b.t.node && b.ring[h] != [] && b.ring[h][0] == h
    requires x !in b.t.node && b.t.node[h].fd in b.t.node && b.owner.Keys == b.t.node.Keys
    requires y == x || (y in b.owner && OwnerOk(b, y) && SizeIndexed(b.t.node[y]))
    requires SizeIndexed(c) && SizeIndexed(b.t.node[h]) && b.t.node[h].size == c.size && c.parent == 0
    ensures var b' := JoinRing(b, h, x, c); OwnerOk(b', y) && SizeIndexed(b'.t.node[y])
  {
    var b' := JoinRing(b, h, x, c);
    assert b'.ring[h][1] == x;
    if y != x && b.owner[y] == h { StillMember(b.ring[h], x, y); }
  }

  lemma StillMember(r: seq<int>, x: int, y: int)
    requires r != [] && y in r
    ensures y in [r[0], x] + r[1..]
  {
    var k :| 0 <= k < |r| && r[k] == y;
    assert k > 0 ==> ([r[0], x] + r[1..])[k + 1] == y;
    assert k == 0 ==> ([r[0], x] + r[1..])[0] == y;
  }

  lemma DisjointRings(b: Bins, m: int, n: int)
    requires m in b.ring && n in b.ring && RingOk(b, m) && RingOk(b, n) && m != n
    ensures forall y <- b.ring[n] :: y !in b.ring[m]
    ensures m in b.t.node && b.t.node[m].fd in b.ring[m]
  {
    RingNeighbours(b.t.node, b.ring[m], 0);
    assert b.t.node[m].fd in b.ring[m];
  }

  /** x, not the head, leaves the ring of h. */
  ghost function LeaveRing(b: Bins, h: int, k: nat): Bins
    requires h in b.ring && k < |b.ring[h]|
    requires var x := b.ring[h][k]; x in b.t.node && b.t.node[x].fd in b.t.node && b.t.node[x].bk in b.t.node
  {
    var x := b.ring[h][k];
    Bins(b.t.(node := UnlinkWords(b.t.node, x) - {x}), b.ring[h := Without(b.ring[h], k)], b.owner - {x})
  }

  lemma LeaveRingValid(b: Bins, h: int, k: nat)
    requires Valid(b) && h in b.ring && 0 < k < |b.ring[h]|
    ensures RingOk(b, h) && var x := b.ring[h][k];
      x in b.t.node && x !in b.t.path && b.t.node[x].fd in b.t.node && b.t.node[x].bk in b.t.node
    ensures Valid(LeaveRing(b, h, k))
  {
    assert RingOk(b, h);
    var x := b.ring[h][k];
    UnlinkLinked(b.t.node, b.ring[h], k);
    NodeFacts(b, x);
    LeaveRingTrie(b, h, k);
    LeaveRingRings(b, h, k);
  }

  lemma LeaveRingTrie(b: Bins, h: int, k: nat)
    requires Inv(b.t) && h in b.ring && 0 < k < |b.ring[h]|
    requires var x := b.ring[h][k]; x in b.t.node && x !in b.t.path
    requires var x := b.ring[h][k]; b.t.node[x].fd in b.t.node && b.t.node[x].bk in b.t.node
    ensures Inv(LeaveRing(b, h, k).t)
  {
    var t' := LeaveRing(b, h, k).t;
    UnlinkWordsSame(b.t.node, b.ring[h][k]);
    SameWords(b.t, t');
  }

  lemma LeaveRingRings(b: Bins, h: int, k: nat)
    requires Valid(b) && h in b.ring && 0 < k < |b.ring[h]| && RingOk(b, h)
    requires var x := b.ring[h][k];
      x in b.t.node && x !in b.t.path && b.t.node[x].fd in b.t.node && b.t.node[x].bk in b.t.node
      && Linked(UnlinkWords(b.t.node, x), Without(b.ring[h], k))
    ensures RingsOk(LeaveRing(b, h, k))
  {
    hide Inv;
    var b' := LeaveRing(b, h, k);
    var x := b.ring[h][k];
    RingNeighbours(b.t.node, b.ring[h], k);
    forall n <- b'.ring ensures RingOk(b', n) {
      assert RingOk(b, n);
      LeaveRingRing(b, h, k, n);
    }
    forall y <- b'.owner ensures OwnerOk(b', y) && SizeIndexed(b'.t.node[y]) {
      assert OwnerOk(b, y) && SizeIndexed(b.t.node[y]);
      LeaveRingOwner(b, h, k, y);
    }
  }

  lemma LeaveRingOwner(b: Bins, h: int, k: nat, y: int)
    requires h in b.ring && 0 < k < |b.ring[h]| && b.ring[h][0] == h && Distinct(b.ring[h])
    requires var x := b.ring[h][k];
      x in b.t.node && b.t.node[x].fd in b.t.node && b.t.node[x].bk in b.t.node && y != x
    requires y in b.owner && y in b.t.node && OwnerOk(b, y) && SizeIndexed(b.t.node[y])
    requires b.owner[y] != b.ring[h][k]
    ensures var b' := LeaveRing(b, h, k);
      OwnerOk(b', y) && SizeIndexed(b'.t.node[y])
  {
    UnlinkWordsSame(b.t.node, b.ring[h][k]);
    if b.owner[y] == h { StaysMember(b.ring[h], k, y); }
  }

  lemma LeaveRingRing(b: Bins, h: int, k: nat, n: int)
    requires h in b.ring && 0 < k < |b.ring[h]| && RingOk(b, h)
    requires n in b.ring && RingOk(b, n)
    requires var x := b.ring[h][k];
      x in b.t.node && b.t.node[x].fd in b.t.node && b.t.node[x].bk in b.t.node
      && b.t.node[x].fd in b.ring[h] && b.t.node[x].bk in b.ring[h]
      && Linked(UnlinkWords(b.t.node, x), Without(b.ring[h], k))
    ensures RingOk(LeaveRing(b, h, k), n)
  {
    var b' := LeaveRing(b, h, k);
    var r' := Without(b.ring[h], k);
    if n != h {
      DisjointRings(b, h, n);
      LinkedFrame(b.t.node, b'.t.node, b.ring[n]);
    } else {
      assert forall j | 0 <= j < |r'| :: r'[j] == b.ring[h][if j < k then j else j + 1];
      LinkedFrame(UnlinkWords(b.t.node, b.ring[h][k]), b'.t.node, r');
    }
  }

  lemma StaysMember(r: seq<int>, k: nat, y: int)
    requires k < |r| && y in r && y != r[k]
    ensures y in Without(r, k)
  {
    var j :| 0 <= j < |r| && r[j] == y;
    assert Without(r, k)[if j < k then j else j - 1] == y;
  }

  /** x is gone; nobody else's ring words changed, and nobody but r gained a parent. */
  ghost predicate RingWordsKept(node: map<int, TChunk>, node': map<int, TChunk>, x: int, r: int) {
    && node'.Keys == node.Keys - {x}
    && forall y <- node' ::
         var c, d := node[y], node'[y];
         && c.size == d.size && c.index == d.index && c.fd == d.fd && c.bk == d.bk
         && (y != r && c.parent == 0 ==> d.parent == 0)
  }

  /** A node without ring mates goes. */
  ghost function DropSingleton(b: Bins, t: Trie, x: int): Bins {
    Bins(t, b.ring - {x}, b.owner - {x})
  }

  lemma DropSingletonValid(b: Bins, t: Trie, x: int, r: int)
    requires Valid(b) && x in b.ring && |b.ring[x]| == 1 && (r == 0 || r in b.t.path)
    requires Inv(t) && t.path.Keys == b.t.path.Keys - {x} && RingWordsKept(b.t.node, t.node, x, r)
    ensures Valid(DropSingleton(b, t, x))
  {
    var b' := DropSingleton(b, t, x);
    assert RingOk(b, x);
    forall n <- b'.ring ensures RingOk(b', n) {
      assert RingOk(b, n);
      DropSingletonRing(b, t, x, r, n);
    }
    if r != 0 { NodeFacts(b, r); }
    forall y <- b'.owner ensures OwnerOk(b', y) && SizeIndexed(t.node[y]) {
      DropSingletonOwner(b, t, x, r, y);
    }
  }

  lemma DropSingletonOwner(b: Bins, t: Trie, x: int, r: int, y: int)
    requires RingsOk(b) && x in b.ring && |b.ring[x]| == 1 && RingWordsKept(b.t.node, t.node, x, r)
    requires y in b.owner && y != x && (y == r ==> b.owner[y] == y)
    ensures OwnerOk(DropSingleton(b, t, x), y) && SizeIndexed(t.node[y])
  {
    assert RingOk(b, x) && OwnerOk(b, y) && SizeIndexed(b.t.node[y]);
  }

  lemma DropSingletonRing(b: Bins, t: Trie, x: int, r: int, n: int)
    requires x in b.ring && RingOk(b, x) && RingWordsKept(b.t.node, t.node, x, r)
    requires n in b.ring && n != x && RingOk(b, n)
    ensures RingOk(DropSingleton(b, t, x), n)
  {
    DisjointRings(b, x, n);
    LinkedFrame(b.t.node, t.node, b.ring[n]);
  }

  /** The head x of a ring goes; its last ring mate takes its place. */
  ghost function HandOver(b: Bins, t: Trie, x: int): Bins
    requires x in b.ring && |b.ring[x]| > 1
  {
    var ring := b.ring[x];
    var r := ring[|ring| - 1];
    Bins(t, (b.ring - {x})[r := [r] + ring[1..|ring| - 1]],
         map y <- b.owner | y != x :: if b.owner[y] == x then r else b.owner[y])
  }

  ghost predicate HandOverStep(b: Bins, t: Trie, x: int) {
    && x in b.ring && |b.ring[x]| > 1 && RingOk(b, x) && x in b.t.node
    && b.t.node[x].fd in b.t.node && b.t.node[x].bk in b.t.node
    && b.t.node[x].bk == b.ring[x][|b.ring[x]| - 1]
    && RingWordsKept(UnlinkWords(b.t.node, x), t.node, x, b.t.node[x].bk)
  }

  lemma HandOverReady(b: Bins, x: int)
    requires Valid(b) && x in b.ring && |b.ring[x]| > 1
    ensures x in b.t.node && b.t.node[x].fd in b.t.node && b.t.node[x].bk in b.t.node
    ensures RingOk(b, x) && b.t.node[x].bk == b.ring[x][|b.ring[x]| - 1] && b.t.node[x].bk > 0
    ensures var u := b.t.(node := UnlinkWords(b.t.node, x));
      Inv(u) && MayTakeOver(u, x, b.t.node[x].bk)
  {
    assert RingOk(b, x);
    RingNeighbours(b.t.node, b.ring[x], 0);
    UnlinkWordsSame(b.t.node, x);
    var u, r := b.t.(node := UnlinkWords(b.t.node, x)), b.t.node[x].bk;
    SameWords(b.t, u);
    assert UpFrom(u, x) && SizeOk(u, x);
    NodeFacts(b, r);
    assert OwnerOk(b, r);
  }

  lemma HandOverValid(b: Bins, t: Trie, x: int)
    requires Valid(b) && HandOverStep(b, t, x) && Inv(t)
    requires t.path.Keys == b.t.path.Keys - {x} + {b.t.node[x].bk}
    ensures Valid(HandOver(b, t, x))
  {
    hide Inv, OwnerOk, SizeIndexed, RingWordsKept, UnlinkWords;
    var r := b.t.node[x].bk;
    HandOverKeys(b, t, x);
    NodeFacts(b, r);
    HandOverAllRings(b, t, x);
    HandOverAllOwners(b, t, x);
  }

  lemma HandOverAllRings(b: Bins, t: Trie, x: int)
    requires RingsOk(b) && HandOverStep(b, t, x)
    ensures forall n <- HandOver(b, t, x).ring :: RingOk(HandOver(b, t, x), n)
  {
    forall n <- HandOver(b, t, x).ring ensures RingOk(HandOver(b, t, x), n) {
      if n == b.t.node[x].bk {
        HandOverNewRing(b, t, x);
      } else {
        HandOverOldRing(b, t, x, n);
      }
    }
  }

  lemma HandOverAllOwners(b: Bins, t: Trie, x: int)
    requires RingsOk(b) && HandOverStep(b, t, x) && b.t.node[x].bk !in b.ring
    requires HandOver(b, t, x).owner.Keys == t.node.Keys
    ensures forall y <- HandOver(b, t, x).owner ::
              OwnerOk(HandOver(b, t, x), y) && SizeIndexed(t.node[y])
  {
    forall y <- HandOver(b, t, x).owner ensures OwnerOk(HandOver(b, t, x), y) && SizeIndexed(t.node[y]) {
      HandOverOwner(b, t, x, y);
    }
  }

  lemma HandOverKeys(b: Bins, t: Trie, x: int)
    requires HandOverStep(b, t, x) && b.ring.Keys == b.t.path.Keys && b.owner.Keys == b.t.node.Keys
    requires t.path.Keys == b.t.path.Keys - {x} + {b.t.node[x].bk}
    ensures var b' := HandOver(b, t, x);
      b'.ring.Keys == b'.t.path.Keys && b'.owner.Keys == b'.t.node.Keys
  {
    UnlinkWordsSame(b.t.node, x);
  }

  lemma HandOverNewRing(b: Bins, t: Trie, x: int)
    requires HandOverStep(b, t, x)
    ensures RingOk(HandOver(b, t, x), b.t.node[x].bk)
  {
    var r, ring := b.t.node[x].bk, b.ring[x];
    var b', ring', node := HandOver(b, t, x), [r] + ring[1..|ring| - 1], UnlinkWords(b.t.node, x);
    RotatedRing(b.t.node, ring);
    LinkedFrame(node, b'.t.node, ring');
    assert forall j | 1 <= j < |ring'| :: ring'[j] == ring[j];
  }

  lemma RotatedRing(node: map<int, TChunk>, ring: seq<int>)
    requires |ring| > 1 && Linked(node, ring)
    ensures ring[0] in node && node[ring[0]].fd in node && node[ring[0]].bk in node
    ensures Linked(UnlinkWords(node, ring[0]), [ring[|ring| - 1]] + ring[1..|ring| - 1])
  {
    UnlinkLinked(node, ring, 0);
    assert Without(ring, 0) == ring[1..];
    RotateLinked(UnlinkWords(node, ring[0]), ring[1..]);
    assert [ring[1..][|ring| - 2]] + ring[1..][..|ring| - 2] == [ring[|ring| - 1]] + ring[1..|ring| - 1];
  }

  lemma HandOverOldRing(b: Bins, t: Trie, x: int, n: int)
    requires HandOverStep(b, t, x)
    requires n in b.ring && n != x && RingOk(b, n) && n != b.t.node[x].bk
    ensures RingOk(HandOver(b, t, x), n)
  {
    DisjointRings(b, x, n);
    RingNeighbours(b.t.node, b.ring[x], 0);
    assert b.t.node[x].bk in b.ring[x];
    LinkedFrame(b.t.node, t.node, b.ring[n]);
  }

  lemma HandOverOwner(b: Bins, t: Trie, x: int, y: int)
    requires HandOverStep(b, t, x)
    requires y in b.owner && y in b.t.node && y != x && OwnerOk(b, y) && SizeIndexed(b.t.node[y])
    requires b.t.node[x].bk in b.owner && OwnerOk(b, b.t.node[x].bk) && b.t.node[x].bk !in b.ring
    ensures var b' := HandOver(b, t, x);
      y in b'.owner && y in b'.t.node && OwnerOk(b', y) && SizeIndexed(b'.t.node[y])
  {
    var r, ring := b.t.node[x].bk, b.ring[x];
    UnlinkWordsSame(b.t.node, x);
    if b.owner[y] == x {
      RotatedMember(ring, y);
    }
  }

  lemma RotatedMember(ring: seq<int>, y: int)
    requires |ring| > 1 && y in ring && y != ring[0]
    ensures y in [ring[|ring| - 1]] + ring[1..|ring| - 1]
  {
    var k :| 0 <= k < |ring| && ring[k] == y;
    var r' := [ring[|ring| - 1]] + ring[1..|ring| - 1];
    if k < |ring| - 1 {
      assert r'[k] == ring[1..|ring| - 1][k - 1] == y;
    } else {
      assert r'[0] == y;
    }
  }
}
