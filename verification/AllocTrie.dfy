/** The tries of large free chunks, as values: chunk addresses with their link words, and the
    branch bits (the ghost map `path`) under which each tree node hangs. */
module Trie {
  import opened TreeIndex

  /** The words of a chunk that are meaningful while it sits in a tree bin. */
  datatype TChunk = TChunk(size: nat, fd: int, bk: int, child0: int, child1: int, parent: int, index: nat)

  datatype Trie = Trie(
    node: map<int, TChunk>,     // all binned chunks, tree nodes or not
    root: seq<int>,             // treebins[]
    marked: seq<bool>,          // bits of treemap
    path: map<int, seq<bool>>)  // tree nodes only

  /** The non-null value which stands for &treebins[i] in the parent word of a root. */
  function BinSlot(i: nat): int {
    -1 - i
  }

  function Child(c: TChunk, b: bool): int {
    if b then c.child1 else c.child0
  }

  function WithChild(c: TChunk, b: bool, v: int): TChunk {
    if b then c.(child1 := v) else c.(child0 := v)
  }

  function Front(p: seq<bool>): seq<bool>
    requires p != []
  {
    p[..|p| - 1]
  }

  function Last(p: seq<bool>): bool
    requires p != []
  {
    p[|p| - 1]
  }

  ghost predicate Keys(t: Trie) {
    && t.path.Keys <= t.node.Keys
    && |t.root| == NTREEBINS && |t.marked| == NTREEBINS
    && (forall x <- t.node :: x > 0)
  }

  /** Sizes below a node share the bits on its path. */
  ghost predicate SizeOk(t: Trie, n: int)
    requires Keys(t) && n in t.path
  {
    t.node[n].index < NTREEBINS && InRange(t.node[n].index, t.path[n], t.node[n].size)
  }

  ghost predicate Hangs(t: Trie, c: int, n: int, b: bool)
    requires Keys(t) && n in t.path
  {
    && c in t.path && t.node[c].parent == n
    && t.node[c].index == t.node[n].index && t.path[c] == t.path[n] + [b]
  }

  ghost predicate DownFrom(t: Trie, n: int)
    requires Keys(t) && n in t.path
  {
    && (t.node[n].child0 != 0 ==> Hangs(t, t.node[n].child0, n, false))
    && (t.node[n].child1 != 0 ==> Hangs(t, t.node[n].child1, n, true))
  }

  ghost predicate UpFrom(t: Trie, n: int)
    requires Keys(t) && n in t.path
  {
    var c := t.node[n];
    if t.path[n] == [] then
      c.parent == BinSlot(c.index) && c.index < NTREEBINS && t.root[c.index] == n
    else
      && c.parent in t.path && t.node[c.parent].index == c.index
      && t.path[c.parent] == Front(t.path[n])
      && Child(t.node[c.parent], Last(t.path[n])) == n
  }

  ghost predicate RootOk(t: Trie, i: nat)
    requires Keys(t) && i < NTREEBINS
  {
    && (t.marked[i] <==> t.root[i] != 0)
    && (t.root[i] != 0 ==> t.root[i] in t.path && t.path[t.root[i]] == [] && t.node[t.root[i]].index == i)
  }

  ghost predicate Inv(t: Trie) {
    && Keys(t)
    && (forall n <- t.path :: SizeOk(t, n))
    && (forall n <- t.path :: DownFrom(t, n))
    && (forall n <- t.path :: UpFrom(t, n))
    && (forall i | 0 <= i < NTREEBINS :: RootOk(t, i))
    // chunks in the ring of an equal-sized tree node have no children of their own
    && (forall x <- t.node | x !in t.path :: t.node[x].child0 == 0 && t.node[x].child1 == 0)
  }

  // ---- Facts about a well-formed trie ------------------------------------------------

  /** A position holds at most one node. */
  lemma {:induction false} Unique(t: Trie, m: int, n: int)
    requires Inv(t) && m in t.path && n in t.path
    requires t.node[m].index == t.node[n].index && t.path[m] == t.path[n]
    ensures m == n
    decreases |t.path[m]|
  {
    assert UpFrom(t, m) && UpFrom(t, n);
    if t.path[m] != [] {
      Unique(t, t.node[m].parent, t.node[n].parent);
    }
  }

  ghost predicate InSubtree(t: Trie, y: int, n: int)
    requires Keys(t)
  {
    y in t.path && n in t.path && t.node[y].index == t.node[n].index && t.path[n] <= t.path[y]
  }

  /** Everything strictly below n is below the child on its branch. */
  lemma {:induction false} Below(t: Trie, n: int, y: int)
    requires Inv(t) && InSubtree(t, y, n) && y != n
    ensures |t.path[n]| < |t.path[y]|
    ensures var c := Child(t.node[n], t.path[y][|t.path[n]|]); c != 0 && InSubtree(t, y, c)
    decreases |t.path[y]|
  {
    assert UpFrom(t, y);
    if |t.path[y]| == |t.path[n]| {
      Unique(t, n, y);
    } else {
      var p := t.node[y].parent;
      if |t.path[y]| == |t.path[n]| + 1 {
        Unique(t, p, n);
      } else {
        Below(t, n, p);
      }
    }
  }

  /** Every node is below the root of its bin. */
  lemma {:induction false} BelowRoot(t: Trie, y: int)
    requires Inv(t) && y in t.path
    ensures var i := t.node[y].index; i < NTREEBINS && t.root[i] != 0 && InSubtree(t, y, t.root[i])
    decreases |t.path[y]|
  {
    assert UpFrom(t, y);
    if t.path[y] != [] {
      BelowRoot(t, t.node[y].parent);
    }
  }

  lemma {:induction false} LoNests(i: nat, p: seq<bool>, q: seq<bool>)
    requires p <= q && |q| <= TopBits(i)
    ensures Lo(i, p) <= Lo(i, q)
    ensures Lo(i, q) + Width(i, |q|) <= Lo(i, p) + Width(i, |p|)
    decreases |q|
  {
    if |p| < |q| {
      LoNests(i, p, Front(q));
      assert Width(i, |q| - 1) == 2 * Width(i, |q|);
    } else {
      assert p == q;
    }
  }

  /** A size below a node lies in the node's interval; the two children split it in half. */
  lemma RangeOfSubtree(t: Trie, n: int, y: int)
    requires Inv(t) && InSubtree(t, y, n)
    ensures InRange(t.node[n].index, t.path[n], t.node[y].size)
  {
    LoNests(t.node[n].index, t.path[n], t.path[y]);
  }

  // ---- Inserting a leaf --------------------------------------------------------------

  function SetChild(t: Trie, n: int, b: bool, c: int): Trie
    requires n in t.node
  {
    t.(node := t.node[n := WithChild(t.node[n], b, c)])
  }

  function SetRoot(t: Trie, i: nat, n: int): Trie
    requires i < |t.root| && i < |t.marked|
  {
    t.(root := t.root[i := n], marked := t.marked[i := n != 0])
  }

  ghost predicate Fresh(t: Trie, x: int, c: TChunk, par: int) {
    x > 0 && x !in t.node && c.child0 == 0 && c.child1 == 0 && c.parent == par
  }

  function InsertRoot(t: Trie, x: int, c: TChunk): Trie
    requires c.index < |t.root| && c.index < |t.marked|
  {
    SetRoot(t, c.index, x).(node := t.node[x := c], path := t.path[x := []])
  }

  function InsertLeaf(t: Trie, x: int, c: TChunk, n: int, b: bool): Trie
    requires n in t.path && n in t.node
  {
    var u := SetChild(t, n, b, x);
    u.(node := u.node[x := c], path := t.path[x := t.path[n] + [b]])
  }

  lemma InsertRootInv(t: Trie, x: int, c: TChunk)
    requires Inv(t) && c.index < NTREEBINS && Fresh(t, x, c, BinSlot(c.index))
    requires t.root[c.index] == 0 && InRange(c.index, [], c.size)
    ensures Inv(InsertRoot(t, x, c))
  {
    var u := InsertRoot(t, x, c);
    assert Keys(u);
    forall n <- u.path ensures SizeOk(u, n) && DownFrom(u, n) && UpFrom(u, n) {
      if n != x { assert SizeOk(t, n) && DownFrom(t, n) && UpFrom(t, n); }
    }
    forall i | 0 <= i < NTREEBINS ensures RootOk(u, i) {
      assert RootOk(t, i);
    }
  }

  lemma InsertLeafInv(t: Trie, x: int, c: TChunk, n: int, b: bool)
    requires Inv(t) && n in t.path && Fresh(t, x, c, n) && c.index == t.node[n].index
    requires Child(t.node[n], b) == 0 && InRange(c.index, t.path[n] + [b], c.size)
    ensures Inv(InsertLeaf(t, x, c, n, b))
  {
    var u := InsertLeaf(t, x, c, n, b);
    assert Keys(u);
    assert SizeOk(t, n);
    forall m <- u.path ensures SizeOk(u, m) && DownFrom(u, m) && UpFrom(u, m) {
      if m != x {
        assert SizeOk(t, m) && DownFrom(t, m) && UpFrom(t, m);
        InsertLeafKeeps(t, x, c, n, b, m);
      }
    }
    forall i | 0 <= i < NTREEBINS ensures RootOk(u, i) {
      assert RootOk(t, i);
    }
  }

  lemma InsertLeafKeeps(t: Trie, x: int, c: TChunk, n: int, b: bool, m: int)
    requires Keys(t) && n in t.path && Fresh(t, x, c, n) && c.index == t.node[n].index
    requires Child(t.node[n], b) == 0
    requires m in t.path && SizeOk(t, m) && DownFrom(t, m) && UpFrom(t, m)
    requires Keys(InsertLeaf(t, x, c, n, b))
    ensures var u := InsertLeaf(t, x, c, n, b); SizeOk(u, m) && DownFrom(u, m) && UpFrom(u, m)
  {}

  /** Inv depends only on the tree words of tree nodes. */
  lemma SameWords(t: Trie, u: Trie)
    requires Inv(t) && Keys(u) && u.path == t.path && u.root == t.root && u.marked == t.marked
    requires forall n <- t.path :: SameTreeWords(t.node[n], u.node[n])
    requires forall x <- u.node | x !in u.path :: u.node[x].child0 == 0 && u.node[x].child1 == 0
    ensures Inv(u)
  {
    forall n <- u.path ensures SizeOk(u, n) && DownFrom(u, n) && UpFrom(u, n) {
      assert SizeOk(t, n) && DownFrom(t, n) && UpFrom(t, n);
    }
    forall i | 0 <= i < NTREEBINS ensures RootOk(u, i) {
      assert RootOk(t, i);
    }
  }

  predicate SameTreeWords(c: TChunk, d: TChunk) {
    c.(fd := 0, bk := 0) == d.(fd := 0, bk := 0)
  }

  // ---- Removing ----------------------------------------------------------------------

  /** Clear the slot that points to the leaf r; r keeps its words but has no position. */
  function DetachLeaf(t: Trie, r: int): Trie
    requires Keys(t) && r in t.path && UpFrom(t, r)
  {
    var u := if t.path[r] == [] then SetRoot(t, t.node[r].index, 0)
             else SetChild(t, t.node[r].parent, Last(t.path[r]), 0);
    u.(path := t.path - {r})
  }

  lemma DetachLeafInv(t: Trie, r: int)
    requires Inv(t) && r in t.path && UpFrom(t, r)
    requires t.node[r].child0 == 0 && t.node[r].child1 == 0
    ensures Inv(DetachLeaf(t, r))
  {
    var u := DetachLeaf(t, r);
    assert Keys(u);
    forall n <- u.path ensures SizeOk(u, n) && DownFrom(u, n) && UpFrom(u, n) {
      assert SizeOk(t, n) && DownFrom(t, n) && UpFrom(t, n);
      DetachLeafKeeps(t, r, n);
    }
    forall i | 0 <= i < NTREEBINS ensures RootOk(u, i) {
      assert RootOk(t, i);
    }
    assert forall x <- u.node | x !in u.path :: x == r || x !in t.path;
  }

  lemma DetachLeafKeeps(t: Trie, r: int, n: int)
    requires Keys(t) && r in t.path && UpFrom(t, r) && t.node[r].child0 == 0 && t.node[r].child1 == 0
    requires n in t.path && n != r && SizeOk(t, n) && DownFrom(t, n) && UpFrom(t, n)
    requires Keys(DetachLeaf(t, r))
    ensures var u := DetachLeaf(t, r); SizeOk(u, n) && DownFrom(u, n) && UpFrom(u, n)
  {}

  lemma DropKeyInv(t: Trie, x: int)
    requires Inv(t) && x !in t.path
    ensures Inv(t.(node := t.node - {x}))
  {
    SameWords(t, t.(node := t.node - {x}));
  }

  /** The idle chunk r takes the position of the node x, and x is dropped. */
  function TakeOver(t: Trie, x: int, r: int): Trie
    requires Keys(t) && x in t.path && UpFrom(t, x) && r in t.node
  {
    var c := t.node[x];
    var u := if t.path[x] == [] then SetRoot(t, c.index, r) else SetChild(t, c.parent, Last(t.path[x]), r);
    u.(node := Adopt(Adopt(TakeOverBase(t, x, r), c.child0, r), c.child1, r) - {x},
       path := (t.path - {x})[r := t.path[x]])
  }

  /** The words once r is linked in below the parent of x, before its children follow. */
  function TakeOverBase(t: Trie, x: int, r: int): map<int, TChunk>
    requires Keys(t) && x in t.path && UpFrom(t, x) && r in t.node
  {
    var c := t.node[x];
    var node := if t.path[x] == [] then t.node else SetChild(t, c.parent, Last(t.path[x]), r).node;
    node[r := node[r].(parent := c.parent, child0 := c.child0, child1 := c.child1)]
  }

  function Adopt(node: map<int, TChunk>, c: int, r: int): map<int, TChunk> {
    if c != 0 && c in node then node[c := node[c].(parent := r)] else node
  }

  ghost predicate MayTakeOver(t: Trie, x: int, r: int)
    requires Keys(t)
  {
    && x in t.path && UpFrom(t, x) && r in t.node && r !in t.path && r != x
    && t.node[r].index == t.node[x].index && InRange(t.node[x].index, t.path[x], t.node[r].size)
  }

  lemma TakeOverInv(t: Trie, x: int, r: int)
    requires Inv(t) && MayTakeOver(t, x, r)
    ensures Inv(TakeOver(t, x, r))
  {
    var u := TakeOver(t, x, r);
    TakeOverKeys(t, x, r);
    forall n <- u.path ensures SizeOk(u, n) && DownFrom(u, n) && UpFrom(u, n) {
      TakeOverNode(t, x, r, n);
    }
    forall i | 0 <= i < NTREEBINS ensures RootOk(u, i) {
      TakeOverRoot(t, x, r, i);
    }
  }

  lemma TakeOverKeys(t: Trie, x: int, r: int)
    requires Keys(t) && MayTakeOver(t, x, r) && (x in t.path ==> DownFrom(t, x))
    requires forall x <- t.node | x !in t.path :: t.node[x].child0 == 0 && t.node[x].child1 == 0
    ensures Keys(TakeOver(t, x, r))
    ensures var u := TakeOver(t, x, r);
            forall y <- u.node | y !in u.path :: u.node[y].child0 == 0 && u.node[y].child1 == 0
  {}

  lemma TakeOverRoot(t: Trie, x: int, r: int, i: nat)
    requires Keys(t) && MayTakeOver(t, x, r) && DownFrom(t, x) && i < NTREEBINS && RootOk(t, i)
    requires t.root[i] in t.path ==> DownFrom(t, t.root[i]) && UpFrom(t, t.root[i])
    requires Keys(TakeOver(t, x, r))
    ensures RootOk(TakeOver(t, x, r), i)
  {}

  lemma TakeOverNode(t: Trie, x: int, r: int, n: int)
    requires Inv(t) && MayTakeOver(t, x, r) && Keys(TakeOver(t, x, r)) && n in TakeOver(t, x, r).path
    ensures var u := TakeOver(t, x, r); SizeOk(u, n) && DownFrom(u, n) && UpFrom(u, n)
  {
    assert SizeOk(t, x) && DownFrom(t, x) && UpFrom(t, x);
    if n == r {
      TakeOverPlaces(t, x, r);
    } else {
      TakeOverKeeps(t, x, r, n);
    }
  }

  lemma TakeOverPlaces(t: Trie, x: int, r: int)
    requires Keys(t) && MayTakeOver(t, x, r) && SizeOk(t, x) && DownFrom(t, x)
    requires Keys(TakeOver(t, x, r))
    ensures var u := TakeOver(t, x, r);
            r in u.path && SizeOk(u, r) && DownFrom(u, r) && UpFrom(u, r)
  {}

  /** The tree words of another node n: whatever named x now names r. */
  lemma TakeOverWord(t: Trie, x: int, r: int, n: int)
    requires Keys(t) && MayTakeOver(t, x, r) && DownFrom(t, x)
    requires n in t.path && n != x && DownFrom(t, n) && UpFrom(t, n)
    ensures var w, w' := t.node[n], TakeOver(t, x, r).node[n];
            && w'.size == w.size && w'.index == w.index
            && w'.parent == (if w.parent == x then r else w.parent)
            && w'.child0 == (if w.child0 == x then r else w.child0)
            && w'.child1 == (if w.child1 == x then r else w.child1)
  {
    var w, c := t.node[n], t.node[x];
    AdoptWord(TakeOverBase(t, x, r), c.child0, r, n);
    AdoptWord(Adopt(TakeOverBase(t, x, r), c.child0, r), c.child1, r, n);
    assert w.parent == x <==> (n == c.child0 || n == c.child1);
    TakeOverBaseWord(t, x, r, n);
  }

  lemma TakeOverBaseWord(t: Trie, x: int, r: int, n: int)
    requires Keys(t) && MayTakeOver(t, x, r)
    requires n in t.path && n != x && DownFrom(t, n)
    ensures n in TakeOverBase(t, x, r)
    ensures var w, w' := t.node[n], TakeOverBase(t, x, r)[n];
            && w'.size == w.size && w'.index == w.index && w'.parent == w.parent
            && w'.child0 == (if w.child0 == x then r else w.child0)
            && w'.child1 == (if w.child1 == x then r else w.child1)
  {
    var w, c := t.node[n], t.node[x];
    assert t.path[x] == t.path[n] + [false] ==> t.path[x] != t.path[n] + [true];
  }

  lemma TakeOverKeeps(t: Trie, x: int, r: int, n: int)
    requires Keys(t) && MayTakeOver(t, x, r) && DownFrom(t, x)
    requires n in t.path && n != x && SizeOk(t, n)
    requires forall m <- t.path :: DownFrom(t, m) && UpFrom(t, m)
    requires Keys(TakeOver(t, x, r))
    ensures var u := TakeOver(t, x, r);
            n in u.path && SizeOk(u, n) && DownFrom(u, n) && UpFrom(u, n)
  {
    TakeOverWord(t, x, r, n);
    TakeOverKeepsDown(t, x, r, n);
    TakeOverKeepsUp(t, x, r, n);
  }

  lemma TakeOverKeepsDown(t: Trie, x: int, r: int, n: int)
    requires Keys(t) && MayTakeOver(t, x, r) && DownFrom(t, x)
    requires n in t.path && n != x && Keys(TakeOver(t, x, r))
    requires forall m <- t.path :: DownFrom(t, m) && UpFrom(t, m)
    ensures DownFrom(TakeOver(t, x, r), n)
  {
    hide TakeOver, UpFrom, Hangs, MayTakeOver;
    TakeOverWord(t, x, r, n);
    TakeOverPath(t, x, r);
    if t.node[n].child0 != 0 { TakeOverHangs(t, x, r, n, false); }
    if t.node[n].child1 != 0 { TakeOverHangs(t, x, r, n, true); }
  }

  lemma TakeOverPath(t: Trie, x: int, r: int)
    requires Keys(t) && MayTakeOver(t, x, r)
    ensures TakeOver(t, x, r).path == (t.path - {x})[r := t.path[x]] && x in t.path && r !in t.path && r in t.node
  {}

  /** The child of n on branch b, or r in place of x, hangs there still. */
  lemma TakeOverHangs(t: Trie, x: int, r: int, n: int, b: bool)
    requires Keys(t) && MayTakeOver(t, x, r) && DownFrom(t, x) && Keys(TakeOver(t, x, r))
    requires n in t.path && n != x && DownFrom(t, n) && UpFrom(t, n) && n in TakeOver(t, x, r).path
    requires forall m <- t.path :: DownFrom(t, m) && UpFrom(t, m)
    requires Hangs(t, Child(t.node[n], b), n, b)
    ensures var c := Child(t.node[n], b); Hangs(TakeOver(t, x, r), if c == x then r else c, n, b)
  {
    hide TakeOver, UpFrom, MayTakeOver, DownFrom;
    var c := Child(t.node[n], b);
    TakeOverPath(t, x, r);
    TakeOverWord(t, x, r, n);
    if c == x {
      TakeOverNewWord(t, x, r);
    } else {
      TakeOverWord(t, x, r, c);
    }
  }

  lemma TakeOverNewWord(t: Trie, x: int, r: int)
    requires Keys(t) && MayTakeOver(t, x, r) && DownFrom(t, x)
    ensures var u := TakeOver(t, x, r);
      r in u.node && u.node[r].parent == t.node[x].parent && u.node[r].index == t.node[x].index
  {}

  lemma TakeOverKeepsUp(t: Trie, x: int, r: int, n: int)
    requires Keys(t) && MayTakeOver(t, x, r) && DownFrom(t, x)
    requires n in t.path && n != x && DownFrom(t, n) && UpFrom(t, n)
    requires Keys(TakeOver(t, x, r))
    ensures UpFrom(TakeOver(t, x, r), n)
  {
    hide InRange;
    TakeOverWord(t, x, r, n);
  }

  /** TakeOver changes no fd, bk, size or index word, and gives a parent to nobody but r. */
  lemma TakeOverOtherWords(t: Trie, x: int, r: int, y: int)
    requires Keys(t) && MayTakeOver(t, x, r) && DownFrom(t, x) && y in t.node && y != x
    requires y in t.path ==> UpFrom(t, y)
    ensures y in TakeOver(t, x, r).node
    ensures var c, d := t.node[y], TakeOver(t, x, r).node[y];
      c.size == d.size && c.index == d.index && c.fd == d.fd && c.bk == d.bk
    ensures y != r && t.node[y].parent == 0 ==> TakeOver(t, x, r).node[y].parent == 0
  {
    var c := t.node[x];
    AdoptWord(TakeOverBase(t, x, r), c.child0, r, y);
    AdoptWord(Adopt(TakeOverBase(t, x, r), c.child0, r), c.child1, r, y);
  }

  lemma AdoptWord(node: map<int, TChunk>, c: int, r: int, y: int)
    requires y in node
    ensures y in Adopt(node, c, r) && Adopt(node, c, r)[y] == (if y == c && c != 0 then node[y].(parent := r) else node[y])
  {}
}
