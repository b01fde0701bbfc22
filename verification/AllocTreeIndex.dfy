/** Indexing of the allocator's large-chunk bins (lj_alloc.c, "Indexing Bins"), for a 64-bit size_t.
    Each tree bin holds a bitwise trie; the functions here say which bin a size goes to and
    which interval of sizes a position of that trie stands for. */
module TreeIndex {
  import opened Powers

  const NTREEBINS: nat := 32
  const SIZE_T_RANGE: nat := 0x1_0000_0000_0000_0000
  const SIGN_BIT: nat := 0x8000_0000_0000_0000

  /** Sizes from here on overflow the 32-bit variable of compute_tree_index. */
  const INDEX_LIMIT: nat := 0x100_0000_0000

  function ComputeTreeIndex(s: nat): (i: nat) {
    var x := (s / 256) % 0x1_0000_0000;
    if x == 0 then 0
    else if x > 0xFFFF then NTREEBINS - 1
    else
      var k := Fls(x);
      2 * k + (s / Pow2(k + 7)) % 2
  }

  function MinSize(i: nat): nat {
    Pow2(i / 2 + 8) + (if i % 2 == 1 then Pow2(i / 2 + 7) else 0)
  }

  /** Number of low size bits which the trie of bin i resolves. */
  function TopBits(i: nat): nat {
    if i == NTREEBINS - 1 then 64 else i / 2 + 7
  }

  function LeftShift(i: nat): nat
    requires i < NTREEBINS
  {
    64 - TopBits(i)
  }

  function Base(i: nat): nat {
    if i == NTREEBINS - 1 then 0 else MinSize(i)
  }

  function Width(i: nat, depth: nat): nat {
    if depth <= TopBits(i) then Pow2(TopBits(i) - depth) else 0
  }

  /** Smallest size with the given branch bits below the root of bin i. */
  function Lo(i: nat, path: seq<bool>): nat {
    if path == [] then Base(i)
    else
      Lo(i, path[..|path| - 1]) + (if path[|path| - 1] then Width(i, |path|) else 0)
  }

  predicate InRange(i: nat, path: seq<bool>, s: nat) {
    |path| <= TopBits(i) && Lo(i, path) <= s < Lo(i, path) + Width(i, |path|)
  }

  lemma Pow2Values()
    ensures Pow2(7) == 128 && Pow2(8) == 256
    ensures Pow2(14) == 0x4000 && Pow2(15) == 0x8000 && Pow2(16) == 0x1_0000
    ensures Pow2(22) == 0x40_0000 && Pow2(23) == 0x80_0000 && Pow2(24) == 0x100_0000
    ensures Pow2(32) == 0x1_0000_0000 && Pow2(64) == SIZE_T_RANGE
  {
    Pow2Add(7, 7);
    Pow2Add(8, 8);
    Pow2Add(8, 14);
    Pow2Add(8, 15);
    Pow2Add(8, 16);
    Pow2Add(16, 16);
    Pow2Add(32, 32);
  }

  lemma IndexInBounds(s: nat)
    ensures ComputeTreeIndex(s) < NTREEBINS
  {
    var x := (s / 256) % 0x1_0000_0000;
    if 0 < x <= 0xFFFF {
      Pow2Values();
      FlsBelow(x, 16);
    }
  }

  lemma MulAtLeast(a: nat, h: nat)
    requires a >= 1
    ensures a * h >= h
  {}

  lemma DivIs(s: nat, h: nat, q: nat)
    requires h > 0 && q * h <= s < (q + 1) * h
    ensures s / h == q
  {
    var d := s / h;
    assert d * h <= s < d * h + h;
    if d < q {
      MulAtLeast(q - d, h);
      assert false;
    } else if d > q {
      MulAtLeast(d - q, h);
      assert false;
    }
  }

  /** The half of [2^(k+8), 2^(k+9)) a size lies in is what the index' low bit says. */
  lemma HalfOfRange(s: nat, k: nat)
    requires Pow2(k + 8) <= s < Pow2(k + 9)
    ensures (s / Pow2(k + 7)) % 2 == (if s >= Pow2(k + 8) + Pow2(k + 7) then 1 else 0)
  {
    var h := Pow2(k + 7);
    DivIs(s, h, if s >= 3 * h then 3 else 2);
  }

  lemma HighBitOfSize(s: nat)
    requires 256 <= s < 0x100_0000
    ensures var k := Fls(s / 256); k < 16 && Pow2(k + 8) <= s < Pow2(k + 9)
    ensures Pow2(Fls(s / 256) + 9) == 2 * Pow2(Fls(s / 256) + 8) == 4 * Pow2(Fls(s / 256) + 7)
  {
    Pow2Values();
    var x := s / 256;
    var k := Fls(x);
    FlsBelow(x, 16);
    Pow2Add(k, 8);
    Pow2Add(k + 1, 8);
  }

  /** compute_tree_index sends a size to the bin whose interval of sizes contains it. */
  lemma TreeIndexCorrect(s: nat)
    requires 256 <= s < INDEX_LIMIT
    ensures var i := ComputeTreeIndex(s);
            i < NTREEBINS && MinSize(i) <= s && (i < NTREEBINS - 1 ==> s < MinSize(i + 1))
            && InRange(i, [], s)
  {
    if s < 0x100_0000 {
      MiddleIndex(s);
    } else {
      assert (s / 256) % 0x1_0000_0000 == s / 256;
      Pow2Values();
    }
  }

  lemma MiddleIndex(s: nat)
    requires 256 <= s < 0x100_0000
    ensures var i := ComputeTreeIndex(s);
            i < NTREEBINS && MinSize(i) <= s < MinSize(i + 1) && InRange(i, [], s)
  {
    var k := Fls(s / 256);
    HighBitOfSize(s);
    HalfOfRange(s, k);
    IndexOfMiddle(s, k);
    IndexParts(ComputeTreeIndex(s), k);
    Pow2Values();
  }

  lemma IndexOfMiddle(s: nat, k: nat)
    requires 256 <= s < 0x100_0000 && k == Fls(s / 256)
    ensures ComputeTreeIndex(s) == 2 * k + (s / Pow2(k + 7)) % 2
  {
    assert (s / 256) % 0x1_0000_0000 == s / 256;
  }

  lemma IndexParts(i: nat, k: nat)
    requires 2 * k <= i <= 2 * k + 1
    ensures MinSize(i) == (if i == 2 * k then Pow2(k + 8) else Pow2(k + 8) + Pow2(k + 7))
    ensures MinSize(i + 1) == MinSize(i) + Pow2(k + 7)
    ensures i != 31 ==> Base(i) == MinSize(i) && Width(i, 0) == Pow2(k + 7)
  {
    assert i / 2 == k && i % 2 == i - 2 * k;
    assert Pow2(k + 8) == 2 * Pow2(k + 7);
    if i == 2 * k {
      assert (i + 1) / 2 == k && (i + 1) % 2 == 1;
    } else {
      assert (i + 1) / 2 == k + 1 && (i + 1) % 2 == 0;
      assert Pow2(k + 1 + 8) == 2 * Pow2(k + 8) == 4 * Pow2(k + 7);
    }
  }

  lemma SmallBinBound(i: nat)
    requires i <= 31
    ensures MinSize(i) <= 0xC0_0000
  {
    Pow2Values();
    Pow2Mono(i / 2 + 8, 23);
    Pow2Mono(i / 2 + 7, 22);
  }

  /** The exact condition, for every size: the index is right iff the 32-bit truncation of
      S >> 8 did no harm. */
  lemma TreeIndexCorrectIff(s: nat)
    requires 256 <= s < SIZE_T_RANGE
    ensures var i := ComputeTreeIndex(s);
            (MinSize(i) <= s && (i < NTREEBINS - 1 ==> s < MinSize(i + 1)))
            <==> (s < INDEX_LIMIT || (s / 256) % 0x1_0000_0000 >= 0xC000)
  {
    var x := (s / 256) % 0x1_0000_0000;
    var i := ComputeTreeIndex(s);
    if s < INDEX_LIMIT {
      TreeIndexCorrect(s);
    } else if x > 0xFFFF {
      SmallBinBound(31);
    } else if x == 0 {
      SmallBinBound(1);
    } else {
      TruncatedIndex(s, x);
      SmallBinBound(i);
      if i < 31 { SmallBinBound(i + 1); }
    }
  }

  lemma TruncatedIndex(s: nat, x: nat)
    requires x == (s / 256) % 0x1_0000_0000 && 0 < x <= 0xFFFF
    ensures ComputeTreeIndex(s) <= 31 && (ComputeTreeIndex(s) == 31 <==> x >= 0xC000)
  {
    Pow2Values();
    var k := Fls(x);
    FlsBelow(x, 16);
    if k < 15 {
      Pow2Mono(k + 1, 15);
    } else {
      FlsIs15(x);
      BitOfTruncated(s, x);
    }
  }

  lemma FlsIs15(x: nat)
    requires 0 < x <= 0xFFFF && Fls(x) == 15
    ensures 0x8000 <= x
  {
    Pow2Values();
  }

  lemma BitOfTruncated(s: nat, x: nat)
    requires x == (s / 256) % 0x1_0000_0000 && 0x8000 <= x <= 0xFFFF
    ensures (s / 0x40_0000) % 2 == (if x >= 0xC000 then 1 else 0)
  {
    var q := (s / 256) / 0x1_0000_0000;
    var t := x / 0x4000;
    assert t == if x >= 0xC000 then 3 else 2;
    assert s / 0x40_0000 == 0x4_0000 * q + t by {
      var low := s - 0x40_0000 * (0x4_0000 * q + t);
      assert 0 <= low < 0x40_0000;
    }
  }

  // ---- The shift register K of insert_large_chunk and sizebits of tmalloc_large --------

  /** k holds the part of s below the current position, shifted to the top of the word. */
  ghost predicate Shifted(i: nat, p: seq<bool>, s: nat, k: nat) {
    InRange(i, p, s) && k < SIZE_T_RANGE
    && k * Width(i, |p|) == (s - Lo(i, p)) * SIZE_T_RANGE
  }

  /** s << leftshift_for_tree_index(i) */
  function ShiftToTop(s: nat, i: nat): nat
    requires i < NTREEBINS
  {
    (s * Pow2(LeftShift(i))) % SIZE_T_RANGE
  }

  /** k << 1 */
  function Twice(k: nat): nat {
    (2 * k) % SIZE_T_RANGE
  }

  lemma Cancel(a: int, b: int, h: nat)
    requires a * h < b * h
    ensures a < b
  {}

  /** The base of a bin is a whole number of bin widths. */
  function BaseUnits(i: nat): (q: nat)
    requires i < NTREEBINS
    ensures Base(i) == q * Width(i, 0)
  {
    if i == NTREEBINS - 1 then 0
    else
      assert Pow2(i / 2 + 8) == 2 * Pow2(i / 2 + 7);
      if i % 2 == 1 then 3 else 2
  }

  /** The initial left shift leaves exactly the unresolved bits. */
  lemma ShiftStart(i: nat, s: nat)
    requires i < NTREEBINS && InRange(i, [], s)
    ensures Shifted(i, [], s, ShiftToTop(s, i))
  {
    var w, m, q, d := Width(i, 0), Pow2(LeftShift(i)), BaseUnits(i), s - Base(i);
    WidthTimesShift(i);
    Distribute(q, w, d, m);
    MulLess(d, w, m);
    ModIs(s * m, q, d * m);
  }

  lemma WidthTimesShift(i: nat)
    requires i < NTREEBINS
    ensures Width(i, 0) * Pow2(LeftShift(i)) == SIZE_T_RANGE
  {
    Pow2Values();
    Pow2Add(TopBits(i), LeftShift(i));
  }

  lemma Distribute(q: nat, w: nat, d: nat, m: nat)
    ensures (q * w + d) * m == q * (w * m) + d * m
    ensures (d * m) * w == d * (w * m)
  {}

  lemma MulLess(a: nat, b: nat, m: nat)
    requires a < b && m > 0
    ensures a * m < b * m
  {}

  lemma ModIs(x: nat, q: nat, r: nat)
    requires x == q * SIZE_T_RANGE + r && r < SIZE_T_RANGE
    ensures x % SIZE_T_RANGE == r
  {}

  /** The sign bit of k is the branch of s, and shifting moves on to the next bit. */
  lemma ShiftStep(i: nat, p: seq<bool>, s: nat, k: nat)
    requires Shifted(i, p, s, k) && |p| < TopBits(i)
    ensures Shifted(i, p + [k >= SIGN_BIT], s, Twice(k))
  {
    var h, d, b := Width(i, |p| + 1), s - Lo(i, p), k >= SIGN_BIT;
    assert Width(i, |p|) == 2 * h;
    assert (p + [b])[..|p|] == p;
    assert (2 * k) * h == d * SIZE_T_RANGE by {
      assert k * (2 * h) == (2 * k) * h;
    }
    if d >= h {
      if !b {
        MulLess(2 * k, SIZE_T_RANGE, h);
        assert false;
      }
      assert (2 * k - SIZE_T_RANGE) * h == (d - h) * SIZE_T_RANGE;
    } else {
      Cancel(2 * k, SIZE_T_RANGE, h);
    }
  }
}
