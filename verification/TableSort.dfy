/** table.sort (section 5.5 of the Lua 5.1 Reference Manual): quicksort in place, with a pivot that
    guards its scans. Tables are arrays from index 1; slot 0 is not part of the list. */
module TableSort {
  import opened Powers
  import opened SortOrder

  /** set2 after both elements were pushed: exchange them */
  method Swap<T>(a: array<T>, i: int, j: int)
    requires 0 <= i < a.Length && 0 <= j < a.Length
    modifies a
    ensures a[..] == Swapped(old(a[..]), i, j)
  {
    a[i], a[j] := a[j], a[i];
  }

  /** Swap as a step of a rearrangement of l to u that began with s. */
  method Exchange<T>(a: array<T>, i: int, j: int, ghost s: seq<T>, ghost l: int, ghost u: int)
    requires 0 <= l <= i <= u < a.Length && l <= j <= u && Shuffled(s, a[..], l, u)
    modifies a
    ensures a[..] == Swapped(old(a[..]), i, j) && Shuffled(s, a[..], l, u)
  {
    SwapShuffles(a[..], i, j, l, u);
    ShuffledAgain(s, a[..], Swapped(a[..], i, j), l, u);
    Swap(a, i, j);
  }

  /** Sorts a[l], a[(l+u)/2] and a[u]. */
  method MedianOfThree<T(!new)>(a: array<T>, lt: (T, T) -> bool, l: int, u: int) returns (few: bool)
    requires 0 <= l < u < a.Length
    modifies a
    ensures Shuffled(old(a[..]), a[..], l, u)
    ensures few <==> u - l <= 2
    ensures few && StrictWeak(lt) ==> Sorted(lt, a[..], l, u)
    ensures !few && StrictWeak(lt) ==> Le(lt, a[l], a[(l + u) / 2]) && Le(lt, a[(l + u) / 2], a[u])
  {
    hide Shuffled, StrictWeak;
    ghost var s := a[..];
    NotShuffled(s, l, u);
    Asymmetric(lt);
    if lt(a[u], a[l]) {
      Exchange(a, l, u, s, l, u);
    }
    if u - l == 1 {
      return true;
    }
    var i := (l + u) / 2;
    if lt(a[i], a[l]) {
      Exchange(a, i, l, s, l, u);
    } else if lt(a[u], a[i]) {
      Exchange(a, i, u, s, l, u);
    }
    if StrictWeak(lt) {
      LeTransitive(lt, a[l], a[i], a[u]);
    }
    few := u - l == 2;
  }

  /** Below the pivot p, and above it. */
  ghost predicate Below<T>(lt: (T, T) -> bool, s: seq<T>, l: int, i: int, p: T) {
    0 <= l && i < |s| && forall k | l <= k <= i :: Le(lt, s[k], p)
  }

  ghost predicate Above<T>(lt: (T, T) -> bool, s: seq<T>, j: int, u: int, p: T) {
    0 <= j && u < |s| && forall k | j <= k <= u :: Le(lt, p, s[k])
  }

  /** Repeats ++i until a[i] >= P. */
  method ScanUp<T(!new)>(a: array<T>, lt: (T, T) -> bool, i0: int, u: int, p: T, ghost l: int) returns (i: int, ok: bool)
    requires 0 <= l <= i0 < u < a.Length
    ensures ok ==> i0 < i <= u && !lt(a[i], p)
    ensures ok && StrictWeak(lt) && Below(lt, a[..], l, i0, p) ==> Below(lt, a[..], l, i - 1, p)
    ensures ok ==> forall k | i0 < k < i :: lt(a[k], p)
    ensures !ok ==> forall k | i0 < k <= u :: lt(a[k], p)
  {
    Asymmetric(lt);
    hide StrictWeak;
    i := i0 + 1;
    while lt(a[i], p)
      invariant i0 < i <= u && forall k | i0 < k < i :: lt(a[k], p)
      decreases u - i
    {
      if i >= u {
        return i, false;
      }
      i := i + 1;
    }
    ok := true;
  }

  /** Repeats --j until a[j] <= P. */
  method ScanDown<T(!new)>(a: array<T>, lt: (T, T) -> bool, j0: int, l: int, p: T, ghost u: int) returns (j: int, ok: bool)
    requires 0 <= l < j0 <= u < a.Length
    ensures ok ==> l <= j < j0 && !lt(p, a[j])
    ensures ok && StrictWeak(lt) && Above(lt, a[..], j0, u, p) ==> Above(lt, a[..], j + 1, u, p)
    ensures ok ==> forall k | j < k < j0 :: lt(p, a[k])
    ensures !ok ==> forall k | l <= k < j0 :: lt(p, a[k])
  {
    Asymmetric(lt);
    hide StrictWeak;
    j := j0 - 1;
    while lt(p, a[j])
      invariant l <= j < j0 && forall k | j < k < j0 :: lt(p, a[k])
      decreases j - l
    {
      if j <= l {
        return j, false;
      }
      j := j - 1;
    }
    ok := true;
  }

  /** Partitions l to u around the middle element, which ends up at i. */
  method Partition<T(!new)>(a: array<T>, lt: (T, T) -> bool, l: int, u: int) returns (i: int, ok: bool)
    requires 0 <= l && u < a.Length && u - l >= 3
    modifies a
    ensures Shuffled(old(a[..]), a[..], l, u)
    ensures ok ==> l < i <= u
    ensures StrictWeak(lt) && old(Le(lt, a[l], a[(l + u) / 2]) && Le(lt, a[(l + u) / 2], a[u])) ==> ok && i < u && Split(lt, a[..], l, u, i)
  {
    hide Shuffled, StrictWeak;
    ghost var s := a[..];
    ghost var fit := StrictWeak(lt) && Le(lt, a[l], a[(l + u) / 2]) && Le(lt, a[(l + u) / 2], a[u]);
    NotShuffled(s, l, u);
    Irreflexive(lt);
    i := (l + u) / 2;
    var p := a[i];
    Exchange(a, i, u - 1, s, l, u);
    i := l;
    var j := u - 1;
    while true
      invariant l <= i <= j < u && l < j && i < u - 1 && a[u - 1] == p && Shuffled(s, a[..], l, u)
      invariant fit ==> Below(lt, a[..], l, i, p) && Above(lt, a[..], j, u, p)
      decreases j - i
    {
      ghost var i0, j0 := i, j;
      i, ok := ScanUp(a, lt, i, u, p, l);
      if !ok {
        assert lt(a[u - 1], p);
        return;
      }
      assert fit ==> i <= u - 1;
      j, ok := ScanDown(a, lt, j, l, p, u);
      if !ok {
        assert lt(p, a[l]);
        return;
      }
      if j < i {
        break;
      }
      Exchange(a, i, j, s, l, u);
    }
    Exchange(a, u - 1, i, s, l, u);
  }

  lemma Irreflexive<T(!new)>(lt: (T, T) -> bool)
    ensures StrictWeak(lt) ==> forall x :: !lt(x, x)
  {}

  /** auxsort: false stands for the error that the order function is invalid. The depth is that of
      its recursive calls. */
  method AuxSort<T(!new)>(a: array<T>, lt: (T, T) -> bool, l0: int, u0: int) returns (ok: bool, ghost depth: nat)
    requires 0 <= l0 <= u0 + 1 <= a.Length
    modifies a
    ensures Shuffled(old(a[..]), a[..], l0, u0)
    ensures StrictWeak(lt) ==> ok && Sorted(lt, a[..], l0, u0)
    ensures u0 >= l0 ==> Pow2(depth) <= u0 - l0 + 1
    ensures u0 < l0 ==> depth == 0
    decreases u0 - l0 + 1
  {
    hide Shuffled, StrictWeak, Placed, Split, Sorted;
    var l, u := l0, u0;
    ghost var s := a[..];
    depth := 0;
    NotShuffled(s, l, u);
    AllPlaced(lt, s, l, u);
    while l < u
      invariant l0 <= l <= u + 1 && u <= u0 && Shuffled(s, a[..], l0, u0)
      invariant StrictWeak(lt) ==> Placed(lt, a[..], l0, u0, l, u)
      invariant u0 >= l0 ==> Pow2(depth) <= u0 - l0 + 1
      invariant u0 < l0 ==> depth == 0
      decreases u - l
    {
      ghost var before := a[..];
      var few := MedianOfThree(a, lt, l, u);
      Rearranged(lt, s, before, a[..], l0, u0, l, u);
      if few {
        if StrictWeak(lt) {
          PlacedDone(lt, a[..], l0, u0, l, u);
        }
        return true, depth;
      }
      before := a[..];
      var i, fine := Partition(a, lt, l, u);
      Rearranged(lt, s, before, a[..], l0, u0, l, u);
      if !fine {
        return false, depth;
      }
      before := a[..];
      ghost var l1, u1, p := l, u, i;
      var j;
      if i - l < u - i {
        j := l;
        i := i - 1;
        l := i + 2;
      } else {
        j := i + 1;
        i := u;
        u := j - 2;
      }
      ghost var d;
      ok, d := AuxSort(a, lt, j, i);
      Halves(lt, before, a[..], l0, u0, l1, u1, p, j, i);
      Rearranged(lt, s, before, a[..], l0, u0, j, i);
      Deeper(d, i - j + 1, u1 - l1 + 1);
      if d + 1 > depth {
        depth := d + 1;
      }
      if !ok {
        return;
      }
    }
    ok := true;
    SortedFew(lt, a[..], l0, u0, l, u);
  }

  lemma AllPlaced<T>(lt: (T, T) -> bool, s: seq<T>, l: int, u: int)
    requires 0 <= l <= u + 1 <= |s|
    ensures Placed(lt, s, l, u, l, u)
  {}

  lemma SortedFew<T>(lt: (T, T) -> bool, s: seq<T>, l0: int, u0: int, l: int, u: int)
    requires l >= u
    ensures Placed(lt, s, l0, u0, l, u) ==> Sorted(lt, s, l0, u0)
  {}

  lemma Rearranged<T>(lt: (T, T) -> bool, s: seq<T>, before: seq<T>, t: seq<T>, l0: int, u0: int, l: int, u: int)
    requires Shuffled(s, before, l0, u0) && Shuffled(before, t, l, u) && l0 <= l && u <= u0
    ensures Shuffled(s, t, l0, u0) && (Placed(lt, before, l0, u0, l, u) ==> Placed(lt, t, l0, u0, l, u))
  {
    hide Shuffled, Placed;
    ShuffledWider(before, t, l, u, l0, u0);
    ShuffledAgain(s, before, t, l0, u0);
    if Placed(lt, before, l0, u0, l, u) {
      PlacedKept(lt, before, t, l0, u0, l, u);
    }
  }

  /** The part from j to i, below or above the pivot at p, was sorted. */
  lemma Halves<T(!new)>(lt: (T, T) -> bool, before: seq<T>, t: seq<T>, l0: int, u0: int, l: int, u: int, p: int, j: int, i: int)
    requires Shuffled(before, t, j, i) && l0 <= l && u <= u0 && l <= p <= u
    requires (j == l && i == p - 1) || (j == p + 1 && i == u)
    requires StrictWeak(lt) ==> Split(lt, before, l, u, p) && Placed(lt, before, l0, u0, l, u) && Sorted(lt, t, j, i)
    ensures StrictWeak(lt) && j == l && i == p - 1 ==> Placed(lt, t, l0, u0, p + 1, u)
    ensures StrictWeak(lt) && j == p + 1 && i == u ==> Placed(lt, t, l0, u0, l, p - 1)
  {
    hide Shuffled, Placed, StrictWeak, Split, Sorted;
    if StrictWeak(lt) {
      SplitKept(lt, before, t, l, u, p, j, i);
      ShuffledWider(before, t, j, i, l, u);
      PlacedKept(lt, before, t, l0, u0, l, u);
      if j == l && i == p - 1 {
        HalfPlaced(lt, t, l0, u0, l, u, p, true);
      }
      if j == p + 1 && i == u {
        HalfPlaced(lt, t, l0, u0, l, u, p, false);
      }
    }
  }

  /** Twice the smaller part is less than the whole. */
  lemma Deeper(d: nat, size: int, n: int)
    requires (size >= 1 ==> Pow2(d) <= size) && (size < 1 ==> d == 0) && 2 * size + 1 <= n && n >= 4
    ensures Pow2(d + 1) <= n
  {}

  /** table_sort: for a list of n elements, all of it is sorted, or nothing but its order changed. */
  method Sort<T(!new)>(a: array<T>, lt: (T, T) -> bool, n: nat) returns (ok: bool)
    requires n < a.Length
    modifies a
    ensures Shuffled(old(a[..]), a[..], 1, n)
    ensures StrictWeak(lt) ==> ok && Sorted(lt, a[..], 1, n)
  {
    ghost var depth;
    ok, depth := AuxSort(a, lt, 1, n);
  }
}
