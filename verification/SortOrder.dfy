/** Orders, and rearrangements of a part of a sequence. */
module SortOrder {

  /** What table.sort asks of its order. */
  ghost predicate StrictWeak<T(!new)>(lt: (T, T) -> bool) {
    && (forall x :: !lt(x, x))
    && (forall x, y, z :: lt(x, y) && lt(y, z) ==> lt(x, z))
    && (forall x, y, z :: lt(x, z) ==> lt(x, y) || lt(y, z))
  }

  /** x may come before y. */
  predicate Le<T>(lt: (T, T) -> bool, x: T, y: T) {
    !lt(y, x)
  }

  ghost predicate Sorted<T>(lt: (T, T) -> bool, s: seq<T>, l: int, u: int) {
    0 <= l && u < |s| && forall i, j | l <= i < j <= u :: Le(lt, s[i], s[j])
  }

  lemma LeTransitive<T(!new)>(lt: (T, T) -> bool, x: T, y: T, z: T)
    requires StrictWeak(lt) && Le(lt, x, y) && Le(lt, y, z)
    ensures Le(lt, x, z)
  {}

  lemma Asymmetric<T(!new)>(lt: (T, T) -> bool)
    ensures StrictWeak(lt) ==> forall x, y :: lt(x, y) ==> Le(lt, x, y)
  {}

  function Swapped<T>(s: seq<T>, i: int, j: int): seq<T>
    requires 0 <= i < |s| && 0 <= j < |s|
  {
    s[i := s[j]][j := s[i]]
  }

  /** t has the elements of s, those outside of l to u in their places. */
  ghost predicate Shuffled<T>(s: seq<T>, t: seq<T>, l: int, u: int) {
    && |s| == |t| && multiset(s) == multiset(t)
    && (forall k | 0 <= k < |s| && !(l <= k <= u) :: t[k] == s[k])
    && (forall k | l <= k <= u && 0 <= k < |s| :: Within(s, t[k], l, u))
  }

  ghost predicate Within<T>(s: seq<T>, x: T, l: int, u: int) {
    exists m :: l <= m <= u && 0 <= m < |s| && s[m] == x
  }

  lemma NotShuffled<T>(s: seq<T>, l: int, u: int)
    ensures Shuffled(s, s, l, u)
  {
    forall k | l <= k <= u && 0 <= k < |s| ensures Within(s, s[k], l, u) {}
  }

  lemma SwapShuffles<T>(s: seq<T>, i: int, j: int, l: int, u: int)
    requires 0 <= l <= i <= u < |s| && l <= j <= u
    ensures Shuffled(s, Swapped(s, i, j), l, u)
  {
    var t := Swapped(s, i, j);
    SwapKeeps(s, i, j);
    forall k | l <= k <= u && 0 <= k < |s| ensures Within(s, t[k], l, u) {
      var m := if k == j then i else if k == i then j else k;
      assert s[m] == t[k];
    }
  }

  lemma SwapKeeps<T>(s: seq<T>, i: int, j: int)
    requires 0 <= i < |s| && 0 <= j < |s|
    ensures multiset(Swapped(s, i, j)) == multiset(s)
  {}

  lemma ShuffledAgain<T>(s: seq<T>, t: seq<T>, v: seq<T>, l: int, u: int)
    requires Shuffled(s, t, l, u) && Shuffled(t, v, l, u)
    ensures Shuffled(s, v, l, u)
  {
    forall k | l <= k <= u && 0 <= k < |s| ensures Within(s, v[k], l, u) {
      var m :| l <= m <= u && 0 <= m < |t| && t[m] == v[k];
      assert Within(s, t[m], l, u);
    }
  }

  lemma ShuffledWider<T>(s: seq<T>, t: seq<T>, l: int, u: int, l2: int, u2: int)
    requires Shuffled(s, t, l, u) && l2 <= l && u <= u2
    ensures Shuffled(s, t, l2, u2)
  {
    forall k | l2 <= k <= u2 && 0 <= k < |s| ensures Within(s, t[k], l2, u2) {
      if l <= k <= u {
        var m :| l <= m <= u && 0 <= m < |s| && s[m] == t[k];
        assert l2 <= m <= u2;
      } else {
        assert s[k] == t[k];
      }
    }
  }

  // ---- Progress of the sort ----------------------------------------------------------------

  /** Of l0 to u0, only l to u remains to be sorted. */
  ghost predicate Placed<T>(lt: (T, T) -> bool, s: seq<T>, l0: int, u0: int, l: int, u: int) {
    0 <= l0 && u0 < |s| && forall i, j | l0 <= i < j <= u0 && !(l <= i && j <= u) :: Le(lt, s[i], s[j])
  }

  lemma PlacedDone<T>(lt: (T, T) -> bool, s: seq<T>, l0: int, u0: int, l: int, u: int)
    requires Placed(lt, s, l0, u0, l, u) && Sorted(lt, s, l, u)
    ensures Sorted(lt, s, l0, u0)
  {}

  lemma PlacedKept<T>(lt: (T, T) -> bool, s: seq<T>, t: seq<T>, l0: int, u0: int, l: int, u: int)
    requires Placed(lt, s, l0, u0, l, u) && Shuffled(s, t, l, u) && l0 <= l && u <= u0
    ensures Placed(lt, t, l0, u0, l, u)
  {
    forall i, j | l0 <= i < j <= u0 && !(l <= i && j <= u) ensures Le(lt, t[i], t[j]) {
      var i' := Origin(s, t, l, u, i);
      var j' := Origin(s, t, l, u, j);
      assert Le(lt, s[i'], s[j']);
    }
  }

  lemma Origin<T>(s: seq<T>, t: seq<T>, l: int, u: int, k: int) returns (m: int)
    requires Shuffled(s, t, l, u) && 0 <= k < |s|
    ensures 0 <= m < |s| && t[k] == s[m] && (if l <= k <= u then l <= m <= u else m == k)
  {
    if l <= k <= u {
      assert Within(s, t[k], l, u);
      m :| l <= m <= u && 0 <= m < |s| && s[m] == t[k];
    } else {
      m := k;
    }
  }

  /** The pivot at p is between the two parts. */
  ghost predicate Split<T>(lt: (T, T) -> bool, s: seq<T>, l: int, u: int, p: int) {
    && 0 <= l <= p <= u < |s|
    && (forall k | l <= k < p :: Le(lt, s[k], s[p])) && (forall k | p < k <= u :: Le(lt, s[p], s[k]))
  }

  lemma SplitKept<T>(lt: (T, T) -> bool, s: seq<T>, t: seq<T>, l: int, u: int, p: int, lo: int, hi: int)
    requires Split(lt, s, l, u, p) && Shuffled(s, t, lo, hi) && ((lo == l && hi == p - 1) || (lo == p + 1 && hi == u))
    ensures Split(lt, t, l, u, p)
  {
    forall k | l <= k <= u && k != p ensures k < p ==> Le(lt, t[k], t[p]) ensures k > p ==> Le(lt, t[p], t[k]) {
      var m := Origin(s, t, lo, hi, k);
    }
  }

  /** With one part sorted, only the other remains. */
  lemma HalfPlaced<T(!new)>(lt: (T, T) -> bool, s: seq<T>, l0: int, u0: int, l: int, u: int, p: int, lower: bool)
    requires StrictWeak(lt) && Placed(lt, s, l0, u0, l, u) && Split(lt, s, l, u, p) && l0 <= l && u <= u0
    requires if lower then Sorted(lt, s, l, p - 1) else Sorted(lt, s, p + 1, u)
    ensures if lower then Placed(lt, s, l0, u0, p + 1, u) else Placed(lt, s, l0, u0, l, p - 1)
  {
    forall i, j | l0 <= i < j <= u0 && !(if lower then p + 1 <= i && j <= u else l <= i && j <= p - 1) ensures Le(lt, s[i], s[j]) {
      if l <= i && j <= u {
        AcrossPivot(lt, s, l, u, p, lower, i, j);
      }
    }
  }

  lemma AcrossPivot<T(!new)>(lt: (T, T) -> bool, s: seq<T>, l: int, u: int, p: int, lower: bool, i: int, j: int)
    requires StrictWeak(lt) && Split(lt, s, l, u, p) && l <= i < j <= u && !(if lower then p + 1 <= i else j <= p - 1)
    requires if lower then Sorted(lt, s, l, p - 1) else Sorted(lt, s, p + 1, u)
    ensures Le(lt, s[i], s[j])
  {
    if i < p < j {
      LeTransitive(lt, s[i], s[p], s[j]);
    }
  }
}
