/** ULEB128 numbers, as the dump writer and reader encode and decode them. */
module Uleb {
  import opened Powers

  type byte = x: int | 0 <= x < 256
  type u32 = x: int | 0 <= x < 0x1_0000_0000

  const U32_RANGE: nat := 0x1_0000_0000

  /** Unsigned LEB128 (section 7.6 of DWARF Version 4): seven bits a byte, the lowest first; all but
      the last byte have their top bit set. */
  function Encode(v: nat): (s: seq<byte>)
    ensures |s| >= 1
  {
    if v < 128 then [v] else [v % 128 + 128] + Encode(v / 128)
  }

  /** The number that a byte string stands for. */
  function Value(s: seq<byte>): nat {
    if s == [] then 0 else s[0] % 128 + 128 * Value(s[1..])
  }

  /** Number of bytes up to the first one without the top bit; 0 if there is none. */
  function Extent(s: seq<byte>): (n: nat)
    ensures n <= |s|
    ensures n > 0 ==> s[n - 1] < 128 && forall k | 0 <= k < n - 1 :: s[k] >= 128
    ensures n == 0 ==> forall k | 0 <= k < |s| :: s[k] >= 128
  {
    if s == [] then 0
    else if s[0] < 128 then 1
    else
      var n := Extent(s[1..]);
      if n == 0 then 0 else n + 1
  }

  lemma {:induction false} EncodeExtent(v: nat, rest: seq<byte>)
    ensures Extent(Encode(v) + rest) == |Encode(v)|
  {
    var s := Encode(v) + rest;
    if v < 128 {
      assert s[0] == v;
    } else {
      assert s[0] == v % 128 + 128 && s[1..] == Encode(v / 128) + rest;
      EncodeExtent(v / 128, rest);
    }
  }

  lemma {:induction false} EncodeValue(v: nat)
    ensures Value(Encode(v)) == v
  {
    if v >= 128 {
      assert Encode(v)[1..] == Encode(v / 128);
      EncodeValue(v / 128);
    }
  }

  /** No two numbers have the same code, and no code is a prefix of another. */
  lemma PrefixFree(v: nat, w: nat, x: seq<byte>, y: seq<byte>)
    requires Encode(v) + x == Encode(w) + y
    ensures v == w && x == y
  {
    EncodeExtent(v, x);
    EncodeExtent(w, y);
    var n := |Encode(v)|;
    assert (Encode(v) + x)[..n] == Encode(v) && (Encode(w) + y)[..n] == Encode(w);
    assert (Encode(v) + x)[n..] == x && (Encode(w) + y)[n..] == y;
    EncodeValue(v);
    EncodeValue(w);
  }

  lemma {:induction false} EncodeLength(v: nat, k: nat)
    requires v < Pow2(7 * k) && k >= 1
    ensures |Encode(v)| <= k
    decreases k
  {
    if v >= 128 {
      Pow2Seven();
      if k > 1 {
        Pow2Add(7, 7 * (k - 1));
        assert Pow2(7 * k) == 128 * Pow2(7 * (k - 1));
        EncodeLength(v / 128, k - 1);
      }
    }
  }

  lemma Pow2Seven()
    ensures Pow2(7) == 128
  {
    Pow2Add(3, 4);
    assert Pow2(3) == 8 && Pow2(4) == 16;
  }

  lemma Pow2Sums()
    ensures Pow2(0) == 1 && Pow2(7) == 128 && Pow2(14) == 0x4000 && Pow2(21) == 0x20_0000 && Pow2(28) == 0x1000_0000
    ensures Pow2(32) == U32_RANGE && Pow2(35) == 0x8_0000_0000
  {
    Pow2Seven();
    Pow2Add(7, 7);
    Pow2Add(7, 14);
    Pow2Add(14, 14);
    Pow2Add(28, 4);
    Pow2Add(32, 3);
    assert Pow2(3) == 8 && Pow2(4) == 16;
  }

  lemma EncodeShort(v: nat)
    requires v < 0x8_0000_0000
    ensures |Encode(v)| <= 5
  {
    Pow2Sums();
    EncodeLength(v, 5);
  }

  /** The length of a code is known from the highest bit of the number. */
  lemma {:induction false} LengthOf(v: nat)
    requires v > 0
    ensures |Encode(v)| == Fls(v) / 7 + 1
    decreases v
  {
    Pow2Seven();
    if v < 128 {
      FlsBelow(v, 7);
    } else {
      LengthOf(v / 128);
      FlsDown(v, 7);
    }
  }

  lemma {:induction false} FlsDown(v: nat, k: nat)
    requires v >= Pow2(k)
    ensures Fls(v / Pow2(k)) == Fls(v) - k
    decreases k
  {
    if k > 0 {
      assert v >= 2;
      assert v / 2 >= Pow2(k - 1) by { assert Pow2(k) == 2 * Pow2(k - 1); }
      FlsDown(v / 2, k - 1);
      DivTwice(v, Pow2(k - 1));
    } else {
      assert v / 1 == v;
    }
  }

  lemma DivTwice(v: nat, m: nat)
    requires m > 0
    ensures v / 2 / m == v / (2 * m)
  {
    var q, r := v / 2 / m, v / 2 % m;
    assert v / 2 == q * m + r;
    assert v == (2 * m) * q + (2 * r + v % 2) && 0 <= 2 * r + v % 2 < 2 * m;
    Quotient(v, 2 * m, q, 2 * r + v % 2);
  }

  lemma Quotient(v: nat, d: nat, q: nat, r: nat)
    requires d > 0 && v == d * q + r && r < d
    ensures v / d == q
  {
    var q', r' := v / d, v % d;
    assert v == d * q' + r';
    if q < q' {
      Product(d, q + 1, q');
    } else if q' < q {
      Product(d, q' + 1, q);
    }
  }

  lemma Product(d: nat, a: nat, b: nat)
    requires a <= b
    ensures d * a <= d * b
  {}

  /** The room that bcwrite_proto leaves for the length in front of a prototype, computed from the
      length alone, is what its code takes. */
  lemma LengthPrefix(n: nat)
    requires 0 < n < U32_RANGE
    ensures ((Fls(n) + 8) * 9) / 64 == |Encode(n)| <= 5
  {
    Pow2Sums();
    FlsBelow(n, 32);
    LengthOf(n);
    var f := Fls(n);
    if f < 7 {
    } else if f < 14 {
    } else if f < 21 {
    } else if f < 28 {
    }
  }

  // ---- 33 bits ------------------------------------------------------------------------

  /** The writer's 32-bit form of 2 * lo + tag: bit 31 is set whenever bit 32 would be lost. */
  function Squeezed(lo: u32, tag: nat): u32
    requires tag <= 1
  {
    (if lo >= 0x8000_0000 then (2 * lo) % 0x8000_0000 + 0x8000_0000 else 2 * lo) + tag
  }

  /** Replaces the last byte of a five byte code. */
  function Patched(s: seq<byte>, lo: u32): seq<byte>
    requires |s| > 0
  {
    s[|s| - 1 := s[|s| - 1] % 8 + (lo / 0x800_0000) % 32 / 8 * 8]
  }

  lemma FiveBytes(v: nat)
    requires 0x1000_0000 <= v < 0x8_0000_0000
    ensures var a, b, c, d := v / 128, v / 0x4000, v / 0x20_0000, v / 0x1000_0000;
      Encode(v) == [v % 128 + 128, a % 128 + 128, b % 128 + 128, c % 128 + 128, d]
  {
    var a, b, c, d := v / 128, v / 0x4000, v / 0x20_0000, v / 0x1000_0000;
    assert a / 128 == b && b / 128 == c && c / 128 == d;
    assert Encode(d) == [d];
    assert Encode(c) == [c % 128 + 128] + Encode(d);
    assert Encode(b) == [b % 128 + 128] + Encode(c);
    assert Encode(a) == [a % 128 + 128] + Encode(b);
    assert Encode(v) == [v % 128 + 128] + Encode(a);
  }

  /** After the patch, the bytes are the code of the whole 33-bit number. */
  lemma PatchMakes33(lo: u32, tag: nat)
    requires tag <= 1
    ensures lo < 0x8000_0000 ==> Encode(Squeezed(lo, tag)) == Encode(2 * lo + tag)
    ensures lo >= 0x8000_0000 ==> Patched(Encode(Squeezed(lo, tag)), lo) == Encode(2 * lo + tag)
  {
    if lo >= 0x8000_0000 {
      var v, w := 2 * lo + tag, Squeezed(lo, tag);
      FiveBytes(v);
      FiveBytes(w);
      SameLowBits(v, w, lo, tag);
    }
  }

  lemma SameLowBits(v: nat, w: nat, lo: u32, tag: nat)
    requires lo >= 0x8000_0000 && tag <= 1 && v == 2 * lo + tag && w == Squeezed(lo, tag)
    ensures v % 128 == w % 128 && v / 128 % 128 == w / 128 % 128 && v / 0x4000 % 128 == w / 0x4000 % 128
    ensures v / 0x20_0000 % 128 == w / 0x20_0000 % 128
    ensures w / 0x1000_0000 % 8 + (lo / 0x800_0000) % 32 / 8 * 8 == v / 0x1000_0000
  {
    var q, low := 2 * lo / 0x8000_0000, 2 * lo % 0x8000_0000 + tag;
    assert v == q * 0x8000_0000 + low && w == 0x8000_0000 + low && 2 <= q <= 3 && low < 0x8000_0000;
    Digits(v, q, low);
    Digits(w, 1, low);
    assert lo / 0x800_0000 == v / 0x1000_0000;
  }

  lemma Digits(v: nat, q: nat, low: nat)
    requires v == q * 0x8000_0000 + low && low < 0x8000_0000 && q <= 3
    ensures v % 128 == low % 128 && v / 128 % 128 == low / 128 % 128 && v / 0x4000 % 128 == low / 0x4000 % 128
    ensures v / 0x20_0000 % 128 == low / 0x20_0000 % 128 && v / 0x1000_0000 == 8 * q + low / 0x1000_0000
  {
    AddMultiple(low, 0x100_0000 * q, 128);
    AddMultiple(low / 128, 0x2_0000 * q, 128);
    AddMultiple(low, 0x2_0000 * q, 0x4000);
    AddMultiple(low / 0x4000, 0x400 * q, 128);
    AddMultiple(low, 0x400 * q, 0x20_0000);
    AddMultiple(low / 0x20_0000, 8 * q, 128);
    AddMultiple(low, 8 * q, 0x1000_0000);
  }

  lemma AddMultiple(a: nat, q: nat, d: nat)
    requires d > 0
    ensures (a + q * d) / d == a / d + q && (a + q * d) % d == a % d
  {
    assert a == d * (a / d) + a % d;
    assert a + q * d == d * (a / d + q) + a % d;
    Quotient(a + q * d, d, a / d + q, a % d);
  }
}
