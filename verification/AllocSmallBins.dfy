/** The small bins of malloc_state: 32 circular lists, each through a header word pair in the
    state itself. */
module SmallBins {
  import opened Trie
  import opened Rings

  const NSMALLBINS: nat := 32

  /** smallbin_at(m, i): the header of bin i, as a pseudo chunk address. */
  function Header(i: nat): int {
    -1 - i
  }

  datatype Lists = Lists(
    node: map<int, TChunk>,     // the words of headers and binned chunks
    marked: seq<bool>,          // bits of smallmap
    list: seq<seq<int>>)        // the chunks of each bin in fd order

  ghost predicate ListOk(l: Lists, i: nat)
    requires i < |l.list| && i < |l.marked|
  {
    && Header(i) in l.node
    && (l.marked[i] <==> l.list[i] != [])
    && (l.list[i] != [] ==> Linked(l.node, [Header(i)] + l.list[i]))
    && (forall k | 0 <= k < |l.list[i]| ::
          l.list[i][k] > 0 && l.list[i][k] in l.node && l.node[l.list[i][k]].size == 8 * i)
  }

  ghost predicate InItsList(l: Lists, x: int)
    requires x in l.node
  {
    var s := l.node[x].size;
    s % 8 == 0 && 32 <= s < 256 && s / 8 < |l.list| && x in l.list[s / 8]
  }

  ghost predicate ListsOk(l: Lists) {
    && |l.list| == NSMALLBINS && |l.marked| == NSMALLBINS
    && (forall i | 0 <= i < NSMALLBINS :: ListOk(l, i))
    && (forall x <- l.node | x >= 0 :: x != 0 && InItsList(l, x))
  }

  function Binned(node: map<int, TChunk>): map<int, nat> {
    map x <- node | x > 0 :: node[x].size
  }

  lemma ListFacts(l: Lists, i: nat)
    requires ListsOk(l) && i < NSMALLBINS
    ensures |l.marked| == NSMALLBINS && |l.list| == NSMALLBINS
    ensures ListOk(l, i)
  {}

  // ---- Inserting at the front ----------------------------------------------------------

  /** insert_small_chunk on the words: f is the header itself when the bin is unmarked. */
  function PushWords(node: map<int, TChunk>, h: int, f: int, x: int, c: TChunk): map<int, TChunk>
    requires h in node && f in node
  {
    SetBk(SetFd(node, h, x), f, x)[x := c.(fd := f, bk := h)]
  }

  ghost function Push(l: Lists, i: nat, x: int, c: TChunk): Lists
    requires i < |l.list| && i < |l.marked| && Header(i) in l.node
    requires l.marked[i] ==> l.node[Header(i)].fd in l.node
  {
    var f := if l.marked[i] then l.node[Header(i)].fd else Header(i);
    Lists(PushWords(l.node, Header(i), f, x, c), l.marked[i := true], l.list[i := [x] + l.list[i]])
  }

  lemma PushLinked(l: Lists, i: nat, x: int, c: TChunk)
    requires ListsOk(l) && i < NSMALLBINS && x > 0 && x !in l.node
    ensures Header(i) in l.node && (l.marked[i] ==> l.node[Header(i)].fd in l.node)
    ensures Linked(Push(l, i, x, c).node, [Header(i)] + ([x] + l.list[i]))
  {
    ListFacts(l, i);
    var h := Header(i);
    var r := [h] + l.list[i];
    assert [h] + ([x] + l.list[i]) == [r[0], x] + r[1..];
    if l.marked[i] {
      LinkAfterLinked(l.node, r, x, c);
    } else {
      var node' := Push(l, i, x, c).node;
      assert LinkedAt(node', [h, x], 0) && LinkedAt(node', [h, x], 1);
    }
  }

  lemma PushValid(l: Lists, i: nat, x: int, c: TChunk)
    requires ListsOk(l) && 4 <= i < NSMALLBINS && x > 0 && x !in l.node && c.size == 8 * i
    ensures Header(i) in l.node && (l.marked[i] ==> l.node[Header(i)].fd in l.node)
    ensures ListsOk(Push(l, i, x, c))
  {
    PushLinked(l, i, x, c);
    ListFacts(l, i);
    var l' := Push(l, i, x, c);
    PushSizes(l, i, x, c);
    forall j | 0 <= j < NSMALLBINS ensures ListOk(l', j) {
      PushOther(l, i, x, c, j);
    }
    forall y <- l'.node | y >= 0 ensures y != 0 && InItsList(l', y) {
      PushMember(l, i, x, c, y);
    }
  }

  lemma PushSizes(l: Lists, i: nat, x: int, c: TChunk)
    requires i < |l.list| && i < |l.marked| && Header(i) in l.node && x !in l.node
    requires l.marked[i] ==> l.node[Header(i)].fd in l.node
    ensures var node' := Push(l, i, x, c).node;
      node'.Keys == l.node.Keys + {x} && node'[x].size == c.size && forall y <- l.node :: node'[y].size == l.node[y].size
  {}

  lemma PushMember(l: Lists, i: nat, x: int, c: TChunk, y: int)
    requires ListsOk(l) && 4 <= i < NSMALLBINS && x > 0 && x !in l.node && c.size == 8 * i && Header(i) in l.node
    requires l.marked[i] ==> l.node[Header(i)].fd in l.node
    requires y in Push(l, i, x, c).node && y >= 0
    ensures y != 0 && InItsList(Push(l, i, x, c), y)
  {
    PushSizes(l, i, x, c);
    var l' := Push(l, i, x, c);
    if y == x {
      assert l'.list[i][0] == x;
    } else {
      assert InItsList(l, y);
      var j := l.node[y].size / 8;
      if j == i {
        var k :| 0 <= k < |l.list[i]| && l.list[i][k] == y;
        assert l'.list[i][k + 1] == y;
      }
    }
  }

  lemma PushOther(l: Lists, i: nat, x: int, c: TChunk, j: nat)
    requires ListsOk(l) && i < NSMALLBINS && j < NSMALLBINS && x > 0 && x !in l.node && c.size == 8 * i
    requires Header(i) in l.node && (l.marked[i] ==> l.node[Header(i)].fd in l.node)
    requires Linked(Push(l, i, x, c).node, [Header(i)] + ([x] + l.list[i]))
    ensures ListOk(Push(l, i, x, c), j)
  {
    ListFacts(l, i);
    ListFacts(l, j);
    PushSizes(l, i, x, c);
    var l' := Push(l, i, x, c);
    if j != i && l.list[j] != [] {
      ApartFrom(l, i, j);
      if l.marked[i] { HeaderNeighbours(l, i); }
      LinkedFrame(l.node, l'.node, [Header(j)] + l.list[j]);
    }
    if j == i {
      assert forall k | 1 <= k < |l'.list[i]| :: l'.list[i][k] == l.list[i][k - 1];
    }
  }

  /** The chunks and headers of different bins are different. */
  lemma ApartFrom(l: Lists, i: nat, j: nat)
    requires ListsOk(l) && i < NSMALLBINS && j < NSMALLBINS && i != j
    ensures forall y | y in [Header(i)] + l.list[i] :: y !in [Header(j)] + l.list[j]
  {
    ListFacts(l, i);
    ListFacts(l, j);
  }

  lemma HeaderNeighbours(l: Lists, i: nat)
    requires ListsOk(l) && i < NSMALLBINS && l.marked[i]
    ensures var h, r := Header(i), l.list[i];
      r != [] && h in l.node && l.node[h].fd == r[0] && l.node[h].bk == r[|r| - 1]
      && l.node[h].fd in [h] + r && r[0] in l.node
  {
    ListFacts(l, i);
    RingNeighbours(l.node, [Header(i)] + l.list[i], 0);
    assert ([Header(i)] + l.list[i])[1] == l.list[i][0];
  }

  // ---- Removing -------------------------------------------------------------------------

  ghost function Pop(l: Lists, i: nat, k: nat): Lists
    requires i < |l.list| && i < |l.marked| && k < |l.list[i]|
    requires var x := l.list[i][k]; x in l.node && l.node[x].fd in l.node && l.node[x].bk in l.node
  {
    var x, last := l.list[i][k], |l.list[i]| == 1;
    Lists((if last then l.node else UnlinkWords(l.node, x)) - {x},
          l.marked[i := !last], l.list[i := Without(l.list[i], k)])
  }

  lemma ChunkNeighbours(l: Lists, i: nat, k: nat)
    requires ListsOk(l) && i < NSMALLBINS && k < |l.list[i]|
    ensures var x := l.list[i][k];
      x > 0 && x in l.node && l.node[x].fd in l.node && l.node[x].bk in l.node && l.node[x].size == 8 * i
      && l.node[x].fd in [Header(i)] + l.list[i] && l.node[x].bk in [Header(i)] + l.list[i]
      && l.node[x].fd != x && l.node[x].bk != x
      && (l.node[x].fd == l.node[x].bk <==> |l.list[i]| == 1)
      && (l.node[x].fd == Header(i) <==> k == |l.list[i]| - 1)
  {
    ListFacts(l, i);
    RingNeighbours(l.node, [Header(i)] + l.list[i], k + 1);
  }

  lemma PopValid(l: Lists, i: nat, k: nat)
    requires ListsOk(l) && i < NSMALLBINS && k < |l.list[i]|
    ensures var x := l.list[i][k]; x in l.node && l.node[x].fd in l.node && l.node[x].bk in l.node
    ensures ListsOk(Pop(l, i, k))
  {
    ChunkNeighbours(l, i, k);
    PopSizes(l, i, k);
    var l' := Pop(l, i, k);
    forall j | 0 <= j < NSMALLBINS ensures ListOk(l', j) {
      ChunkNeighbours(l, i, k);
      if j == i { PopHere(l, i, k); } else { PopOther(l, i, k, j); }
    }
    forall y <- l'.node | y >= 0 ensures y != 0 && InItsList(l', y) {
      PopMember(l, i, k, y);
    }
  }

  lemma PopSizes(l: Lists, i: nat, k: nat)
    requires i < |l.list| && i < |l.marked| && k < |l.list[i]|
    requires var x := l.list[i][k]; x in l.node && l.node[x].fd in l.node && l.node[x].bk in l.node
    ensures var node' := Pop(l, i, k).node;
      node'.Keys == l.node.Keys - {l.list[i][k]} && forall y <- node' :: node'[y].size == l.node[y].size
  {}

  lemma PopShape(l: Lists, i: nat, k: nat)
    requires i < |l.list| && i < |l.marked| && k < |l.list[i]|
    requires var x := l.list[i][k]; x in l.node && l.node[x].fd in l.node && l.node[x].bk in l.node
    ensures Pop(l, i, k).list == l.list[i := Without(l.list[i], k)] && Pop(l, i, k).marked == l.marked[i := |l.list[i]| > 1]
    ensures |l.list[i]| > 1 ==> Pop(l, i, k).node == UnlinkWords(l.node, l.list[i][k]) - {l.list[i][k]}
  {}

  lemma PopHere(l: Lists, i: nat, k: nat)
    requires ListsOk(l) && i < NSMALLBINS && k < |l.list[i]|
    requires var x := l.list[i][k]; x > 0 && x in l.node && l.node[x].fd in l.node && l.node[x].bk in l.node
    ensures ListOk(Pop(l, i, k), i)
  {
    hide ListsOk, Pop, InItsList;
    ListFacts(l, i);
    PopSizes(l, i, k);
    PopShape(l, i, k);
    var l', r := Pop(l, i, k), [Header(i)] + l.list[i];
    assert forall j | 0 <= j < |l'.list[i]| :: l'.list[i][j] == l.list[i][if j < k then j else j + 1];
    if |l.list[i]| > 1 {
      UnlinkLinked(l.node, r, k + 1);
      assert Without(r, k + 1) == [Header(i)] + l'.list[i];
      forall j | 0 <= j < |l'.list[i]| ensures l'.list[i][j] != l.list[i][k] {
        assert r[j + 1] != r[k + 1] || j == k;
        assert l'.list[i][j] == r[if j < k then j + 1 else j + 2];
      }
      LinkedFrame(UnlinkWords(l.node, l.list[i][k]), l'.node, [Header(i)] + l'.list[i]);
    }
  }

  lemma PopOther(l: Lists, i: nat, k: nat, j: nat)
    requires ListsOk(l) && i < NSMALLBINS && k < |l.list[i]| && j < NSMALLBINS && j != i
    requires var x := l.list[i][k];
      x > 0 && x in l.node && l.node[x].fd in l.node && l.node[x].bk in l.node
      && l.node[x].fd in [Header(i)] + l.list[i] && l.node[x].bk in [Header(i)] + l.list[i]
    ensures ListOk(Pop(l, i, k), j)
  {
    ListFacts(l, j);
    PopSizes(l, i, k);
    ApartFrom(l, i, j);
    assert l.list[i][k] in [Header(i)] + l.list[i];
    if l.list[j] != [] {
      LinkedFrame(l.node, Pop(l, i, k).node, [Header(j)] + l.list[j]);
    }
    forall m | 0 <= m < |l.list[j]| ensures l.list[j][m] != l.list[i][k] {
      assert l.list[j][m] in [Header(j)] + l.list[j];
    }
  }

  lemma PopMember(l: Lists, i: nat, k: nat, y: int)
    requires ListsOk(l) && i < NSMALLBINS && k < |l.list[i]|
    requires var x := l.list[i][k]; x in l.node && l.node[x].fd in l.node && l.node[x].bk in l.node
    requires y in Pop(l, i, k).node && y >= 0
    ensures y != 0 && InItsList(Pop(l, i, k), y)
  {
    PopSizes(l, i, k);
    assert InItsList(l, y);
    if l.node[y].size / 8 == i { StaysMember(l.list[i], k, y); }
  }

  // ---- The bins of the state ---------------------------------------------------------------

  class SmallBins {
    var node: map<int, TChunk>
    var smallmap: seq<bool>
    ghost var list: seq<seq<int>>

    ghost function L(): Lists
      reads this
    {
      Lists(node, smallmap, list)
    }

    ghost predicate Valid()
      reads this
    {
      ListsOk(L())
    }

    function Chunks(): map<int, nat>
      reads this
    {
      Binned(node)
    }

    /** init_bins */
    constructor ()
      ensures Valid() && Chunks() == map[]
    {
      node := map h | -32 <= h < 0 :: TChunk(0, h, h, 0, 0, 0, 0);
      smallmap, list := seq(NSMALLBINS, _ => false), seq(NSMALLBINS, _ => []);
    }

    /** The least marked bin from `from` on, or NSMALLBINS: lj_ffs of the bits of smallmap. */
    method NextMarked(from: nat) returns (j: nat)
      requires Valid() && from <= NSMALLBINS
      ensures from <= j <= NSMALLBINS && |smallmap| == NSMALLBINS
      ensures j < NSMALLBINS ==> smallmap[j]
      ensures forall i | from <= i < j :: !smallmap[i]
    {
      j := from;
      while j < NSMALLBINS && !smallmap[j]
        invariant from <= j <= NSMALLBINS && |smallmap| == NSMALLBINS && forall i | from <= i < j :: !smallmap[i]
      {
        j := j + 1;
      }
    }

    /** insert_small_chunk */
    method Insert(p: int, s: nat)
      requires Valid() && p > 0 && p !in node && s % 8 == 0 && 32 <= s < 256
      modifies this
      ensures Valid() && Chunks() == old(Chunks())[p := s]
    {
      hide ListsOk;
      ghost var l := L();
      var i := s / 8;
      var c := TChunk(s, 0, 0, 0, 0, 0, 0);
      ListFacts(l, i);
      PushValid(l, i, p, c);
      PushSizes(l, i, p, c);
      var b := Header(i);
      var f := b;
      if !smallmap[i] {
        smallmap := smallmap[i := true];
      } else {
        f := node[b].fd;
      }
      node := SetFd(node, b, p);
      node := SetBk(node, f, p);
      node := node[p := c.(fd := f, bk := b)];
      list := list[i := [p] + list[i]];
      assert L() == Push(l, i, p, c);
    }

    /** unlink_small_chunk */
    method Unlink(p: int)
      requires Valid() && p > 0 && p in node
      modifies this
      ensures Valid() && Chunks() == old(Chunks()) - {p}
    {
      ghost var l := L();
      assert InItsList(l, p);
      var i := node[p].size / 8;
      ghost var k :| 0 <= k < |list[i]| && list[i][k] == p;
      hide ListsOk;
      ChunkNeighbours(l, i, k);
      PopValid(l, i, k);
      PopSizes(l, i, k);
      ListFacts(l, i);
      var f, b := node[p].fd, node[p].bk;
      if f == b {
        smallmap := smallmap[i := false];
      } else {
        node := SetBk(node, f, b);
        node := SetFd(node, b, f);
      }
      node := node - {p};
      list := list[i := Without(list[i], k)];
      assert L() == Pop(l, i, k);
      ContentsLess(l.node, node, p);
    }

    /** unlink_first_small_chunk on a marked bin */
    method UnlinkFirst(i: nat) returns (p: int)
      requires Valid() && i < NSMALLBINS && i < |smallmap| && smallmap[i]
      modifies this
      ensures Valid() && p in old(Chunks()) && old(Chunks())[p] == 8 * i
      ensures Chunks() == old(Chunks()) - {p}
    {
      hide ListsOk;
      ghost var l := L();
      ListFacts(l, i);
      HeaderNeighbours(l, i);
      ChunkNeighbours(l, i, 0);
      PopValid(l, i, 0);
      PopSizes(l, i, 0);
      var b := Header(i);
      p := node[b].fd;
      var f := node[p].fd;
      if b == f {
        smallmap := smallmap[i := false];
      } else {
        node := SetFd(node, b, f);
        node := SetBk(node, f, b);
      }
      node := node - {p};
      list := list[i := Without(list[i], 0)];
      FirstHasHeaderBehind(l, i);
      assert L() == Pop(l, i, 0);
      ContentsLess(l.node, node, p);
    }
  }

  /** Bins without chunks at and above index i: every chunk is smaller. */
  lemma UnmarkedAbove(l: Lists, i: nat)
    requires ListsOk(l) && i <= NSMALLBINS && |l.marked| == NSMALLBINS
    requires forall j | i <= j < NSMALLBINS :: !l.marked[j]
    ensures forall x <- Binned(l.node) :: Binned(l.node)[x] < 8 * i
  {
    forall x <- Binned(l.node) ensures Binned(l.node)[x] < 8 * i {
      assert InItsList(l, x);
      ListFacts(l, l.node[x].size / 8);
    }
  }

  lemma FirstHasHeaderBehind(l: Lists, i: nat)
    requires ListsOk(l) && i < NSMALLBINS && l.list[i] != []
    ensures l.list[i][0] in l.node && l.node[l.list[i][0]].bk == Header(i)
  {
    ListFacts(l, i);
    RingNeighbours(l.node, [Header(i)] + l.list[i], 1);
  }

  lemma ContentsLess(node: map<int, TChunk>, node': map<int, TChunk>, p: int)
    requires node'.Keys == node.Keys - {p} && forall y <- node' :: node'[y].size == node[y].size
    ensures Binned(node') == Binned(node) - {p}
  {
    var a, b := Binned(node'), Binned(node) - {p};
    assert a.Keys == b.Keys;
    assert forall y <- a :: a[y] == b[y];
  }

  /** A marked bin holds a chunk of its size; an unmarked one none. */
  lemma MarkedIff(l: Lists, i: nat)
    requires ListsOk(l) && i < NSMALLBINS
    ensures l.marked[i] <==> exists x :: x in l.node && x > 0 && l.node[x].size == 8 * i
  {
    ListFacts(l, i);
    if l.marked[i] {
      assert l.list[i][0] in l.node && l.list[i][0] > 0;
    }
    forall x | x in l.node && x > 0 && l.node[x].size == 8 * i ensures l.marked[i] {
      assert InItsList(l, x);
    }
  }
}
