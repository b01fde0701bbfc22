/** Constants of a prototype, and the narrowing of number constants to integers. */
module Values {
  import opened Powers
  import opened Uleb

  /** A tagged value, as far as constants need it. Numbers are the two words of a double. */
  datatype TValue =
    | Nil
    | False
    | True
    | Str(chars: seq<byte>)
    | Int(i: int)                 // only in builds with dual numbers
    | Num(lo: u32, hi: u32)

  datatype Option<+T> = None | Some(value: T)

  predicate IsInt32(k: int) {
    -0x8000_0000 <= k < 0x8000_0000
  }

  /** The cast to uint32_t. */
  function U32(k: int): u32 {
    k % U32_RANGE
  }

  /** The cast to int32_t. */
  function I32(w: u32): int {
    if w >= 0x8000_0000 then w - U32_RANGE else w
  }

  /** The double with the value of an integer. */
  function Widen(k: int): (n: (u32, u32))
    requires IsInt32(k)
  {
    if k == 0 then (0, 0)
    else
      var a := if k < 0 then -k else k;
      var e := Exponent(a);
      var m := (a - Pow2(e)) * Pow2(52 - e);
      MantissaFits(a, e);
      Pack(k < 0, e + 1023, m)
  }

  /** The words of a double, from its sign, exponent and mantissa. */
  function Pack(negative: bool, ex: nat, m: nat): (u32, u32)
    requires ex < 2048 && m < MANTISSA_RANGE
  {
    (m % U32_RANGE, (if negative then 0x8000_0000 else 0) + ex * 0x10_0000 + m / U32_RANGE)
  }

  lemma PackParts(negative: bool, ex: nat, m: nat)
    requires ex < 2048 && m < MANTISSA_RANGE
    ensures var (lo, hi) := Pack(negative, ex, m);
      ExponentField(hi) == ex && Mantissa(lo, hi) == m && (hi >= 0x8000_0000 <==> negative)
  {
    var s := if negative then 2048 else 0;
    assert Pack(negative, ex, m).1 == m / U32_RANGE + (s + ex) * 0x10_0000;
    AddMultiple(m / U32_RANGE, s + ex, 0x10_0000);
  }

  lemma PackUnpacked(lo: u32, hi: u32)
    ensures Pack(hi >= 0x8000_0000, ExponentField(hi), Mantissa(lo, hi)) == (lo, hi)
  {
    AddMultiple(lo, hi % 0x10_0000, U32_RANGE);
  }

  function Exponent(a: nat): (e: nat)
    requires 0 < a <= 0x8000_0000
    ensures e <= 31 && Pow2(e) <= a < Pow2(e + 1)
  {
    Pow2Sums();
    FlsBelow(a, 32);
    Fls(a)
  }

  const MANTISSA_RANGE: nat := 0x10_0000_0000_0000

  lemma MantissaFits(a: nat, e: nat)
    requires e <= 31 && Pow2(e) <= a < Pow2(e + 1)
    ensures 0 <= (a - Pow2(e)) * Pow2(52 - e) < MANTISSA_RANGE
  {
    Pow2Fifty();
    Pow2Add(e, 52 - e);
    Times(a - Pow2(e), Pow2(e), Pow2(52 - e));
  }

  lemma Pow2Fifty()
    ensures Pow2(52) == MANTISSA_RANGE
  {
    Pow2Sums();
    Pow2Add(21, 28);
    Pow2Add(49, 3);
    assert Pow2(3) == 8;
  }

  lemma Times(a: nat, b: nat, c: nat)
    requires a < b && c > 0
    ensures 0 <= a * c < b * c
  {}

  function ExponentField(hi: u32): nat {
    hi / 0x10_0000 % 2048
  }

  function Mantissa(lo: u32, hi: u32): (m: nat)
    ensures m < MANTISSA_RANGE
  {
    hi % 0x10_0000 * U32_RANGE + lo
  }

  /** The integer that equals a double, if there is one (lj_num2int and the comparison after it). */
  function Narrow(lo: u32, hi: u32): Option<int> {
    var ex, m := ExponentField(hi), Mantissa(lo, hi);
    if ex == 0 && m == 0 then Some(0)
    else if ex < 1023 || ex > 1023 + 31 then None
    else
      var e := ex - 1023;
      var unit := Pow2(52 - e);
      if m % unit != 0 then None
      else
        var a := Pow2(e) + m / unit;
        var k := if hi >= 0x8000_0000 then -a else a;
        if IsInt32(k) then Some(k) else None
  }

  predicate IsMinusZero(lo: u32, hi: u32) {
    lo == 0 && hi == 0x8000_0000
  }

  predicate IsNaN(lo: u32, hi: u32) {
    hi % 0x8000_0000 > 0x7ff0_0000 || (hi % 0x8000_0000 == 0x7ff0_0000 && lo != 0)
  }

  /** An integer survives the trip through a double ... */
  lemma NarrowWiden(k: int)
    requires IsInt32(k)
    ensures Narrow(Widen(k).0, Widen(k).1) == Some(k)
  {
    hide Pack, Pow2, ExponentField, Mantissa;
    if k != 0 {
      var a := if k < 0 then -k else k;
      var e := Exponent(a);
      MantissaFits(a, e);
      PackParts(k < 0, e + 1023, (a - Pow2(e)) * Pow2(52 - e));
      Multiple(a - Pow2(e), Pow2(52 - e));
    } else {
      assert Widen(k) == (0, 0);
      NarrowZero();
    }
  }

  lemma NarrowZero()
    ensures Narrow(0, 0) == Some(0) && Widen(0) == (0, 0)
  {}

  lemma Multiple(a: nat, d: nat)
    requires d > 0
    ensures (a * d) % d == 0 && (a * d) / d == a
  {
    AddMultiple(0, a, d);
  }

  /** ... and a double that narrows is restored from the integer, unless it is a minus zero. */
  lemma WidenNarrow(lo: u32, hi: u32)
    requires Narrow(lo, hi).Some? && !IsMinusZero(lo, hi)
    ensures IsInt32(Narrow(lo, hi).value) && Widen(Narrow(lo, hi).value) == (lo, hi)
  {
    var ex, m := ExponentField(hi), Mantissa(lo, hi);
    hide Pack, Pow2, ExponentField, Mantissa, Narrow, Widen;
    PackUnpacked(lo, hi);
    if ex != 0 || m != 0 {
      NarrowParts(lo, hi);
      Divided(m, Pow2(52 - (ex - 1023)));
      MantissaSmall(m, ex - 1023);
      WidenAs(Narrow(lo, hi).value, ex - 1023, m / Pow2(52 - (ex - 1023)));
    } else {
      ZeroPacked(lo, hi);
      NarrowZero();
    }
  }

  lemma NarrowParts(lo: u32, hi: u32)
    requires Narrow(lo, hi).Some? && (ExponentField(hi) != 0 || Mantissa(lo, hi) != 0)
    ensures var k, e, m := Narrow(lo, hi).value, ExponentField(hi) - 1023, Mantissa(lo, hi);
      && IsInt32(k) && 0 <= e <= 31 && m % Pow2(52 - e) == 0 && (k < 0 <==> hi >= 0x8000_0000)
      && (if k < 0 then -k else k) == Pow2(e) + m / Pow2(52 - e)
  {
    hide ExponentField, Mantissa, Pow2;
  }

  lemma WidenAs(k: int, e: nat, q: nat)
    requires IsInt32(k) && e <= 31 && q < Pow2(e) && (if k < 0 then -k else k) == Pow2(e) + q
    ensures 0 <= q * Pow2(52 - e) < MANTISSA_RANGE && Widen(k) == Pack(k < 0, e + 1023, q * Pow2(52 - e))
  {
    var a := if k < 0 then -k else k;
    Pow2Doubles(e);
    FlsUnique(a, e);
    hide Pow2, Pack;
    MantissaFits(a, e);
  }

  lemma ZeroPacked(lo: u32, hi: u32)
    requires ExponentField(hi) == 0 && Mantissa(lo, hi) == 0 && !IsMinusZero(lo, hi)
    ensures lo == 0 && hi == 0
  {}

  lemma MantissaSmall(m: nat, e: nat)
    requires e <= 31 && m < MANTISSA_RANGE
    ensures m / Pow2(52 - e) < Pow2(e)
  {
    Pow2Fifty();
    Pow2Add(e, 52 - e);
    SmallQuotient(m, Pow2(52 - e), Pow2(e));
  }

  lemma SmallQuotient(m: nat, d: nat, p: nat)
    requires d > 0 && m < p * d
    ensures m / d < p
  {
    assert m == d * (m / d) + m % d;
    if m / d >= p {
      Product(d, p, m / d);
    }
  }

  lemma Divided(m: nat, d: nat)
    requires d > 0 && m % d == 0
    ensures m / d * d == m
  {}

  lemma Pow2Doubles(e: nat)
    ensures Pow2(e + 1) == 2 * Pow2(e)
  {}

  lemma FlsUnique(a: nat, e: nat)
    requires Pow2(e) <= a < Pow2(e + 1)
    ensures Fls(a) == e
  {
    if Fls(a) < e {
      Pow2Mono(Fls(a) + 1, e);
    } else if Fls(a) > e {
      Pow2Mono(e + 1, Fls(a));
    }
  }

  // ---- What a double stands for ---------------------------------------------------------------

  /** The finite number of these words is the integer k (section 3.4 of IEEE 754-2008): with exponent field ex
      and mantissa m it is (2^52 + m) * 2^(ex - 1075), or m * 2^(1 - 1075) if ex is 0. */
  predicate StandsFor(lo: u32, hi: u32, k: int) {
    var ex, m, a := ExponentField(hi), Mantissa(lo, hi), if k < 0 then -k else k;
    && ex < 2047 && (k < 0 ==> hi >= 0x8000_0000) && (k > 0 ==> hi < 0x8000_0000)
    && a * Pow2(1075) == if ex == 0 then m * 2 else (MANTISSA_RANGE + m) * Pow2(ex)
  }

  /** Exactly those doubles narrow that are 32-bit integers. */
  lemma NarrowIff(lo: u32, hi: u32, k: int)
    ensures Narrow(lo, hi) == Some(k) <==> IsInt32(k) && StandsFor(lo, hi, k)
  {
    hide ExponentField, Mantissa, Narrow, Pow2;
    NarrowCases(lo, hi, k);
    var ex, m, a := ExponentField(hi), Mantissa(lo, hi), if k < 0 then -k else k;
    if ex == 0 {
      Denormal(a, m);
    } else if ex < 1023 {
      TooSmall(a, m, ex);
    } else if ex > 1054 {
      if IsInt32(k) { TooLarge(a, m, ex); }
    } else {
      InUnits(a, m, ex - 1023);
    }
  }

  lemma NarrowCases(lo: u32, hi: u32, k: int)
    ensures var ex, m, a := ExponentField(hi), Mantissa(lo, hi), if k < 0 then -k else k;
      Narrow(lo, hi) == Some(k) <==>
        if ex == 0 then m == 0 && k == 0
        else 1023 <= ex <= 1054 && IsInt32(k) && m % Pow2(1075 - ex) == 0 && a == Pow2(ex - 1023) + m / Pow2(1075 - ex)
             && (k < 0 <==> hi >= 0x8000_0000)
  {
    hide ExponentField, Mantissa, Pow2;
  }

  lemma Denormal(a: nat, m: nat)
    requires m < MANTISSA_RANGE
    ensures a * Pow2(1075) == m * 2 <==> a == 0 && m == 0
  {
    hide Pow2;
    Pow2Fifty();
    Pow2Doubles(52);
    Pow2Mono(53, 1075);
    if a > 0 {
      Pow2Larger(a, Pow2(1075));
    }
  }

  lemma Pow2Larger(a: nat, d: nat)
    requires a > 0
    ensures a * d >= d
  {}

  lemma TooSmall(a: nat, m: nat, ex: nat)
    requires m < MANTISSA_RANGE && ex < 1023
    ensures a * Pow2(1075) != (MANTISSA_RANGE + m) * Pow2(ex)
  {
    hide Pow2;
    Pow2Fifty();
    Pow2Doubles(52);
    Pow2Add(53, ex);
    Pow2Mono(53 + ex, 1075);
    Times(MANTISSA_RANGE + m, 2 * MANTISSA_RANGE, Pow2(ex));
    Pow2Larger(MANTISSA_RANGE + m, Pow2(ex));
    if a > 0 {
      Pow2Larger(a, Pow2(1075));
    }
  }

  lemma TooLarge(a: nat, m: nat, ex: nat)
    requires a <= 0x8000_0000 && ex > 1054
    ensures a * Pow2(1075) < (MANTISSA_RANGE + m) * Pow2(ex)
  {
    hide Pow2;
    Pow2Fifty();
    Pow2Sums();
    Pow2Add(32, 1075);
    Pow2Add(52, ex);
    Pow2Mono(32 + 1075, 52 + ex);
    Times(a, Pow2(32), Pow2(1075));
    Larger(MANTISSA_RANGE, MANTISSA_RANGE + m, Pow2(ex));
  }

  lemma Larger(a: nat, b: nat, c: nat)
    requires a <= b
    ensures a * c <= b * c
  {}

  /** The mantissa in units of the lowest bit that an integer of this size can have. */
  lemma InUnits(a: nat, m: nat, e: nat)
    requires m < MANTISSA_RANGE && e <= 31
    ensures var unit := Pow2(52 - e);
      unit > 0 && (a * Pow2(1075) == (MANTISSA_RANGE + m) * Pow2(e + 1023) <==> m % unit == 0 && a == Pow2(e) + m / unit)
  {
    hide Pow2;
    var unit := Pow2(52 - e);
    Pow2Fifty();
    Pow2Add(e, 52 - e);
    Pow2Add(52 - e, e + 1023);
    Cancel(a, unit, MANTISSA_RANGE + m, Pow2(e + 1023));
    Units(a, unit, Pow2(e), m);
  }

  lemma Cancel(a: nat, d: nat, b: nat, c: nat)
    requires c > 0
    ensures a * (d * c) == b * c <==> a * d == b
  {
    assert a * (d * c) == (a * d) * c;
    if a * d < b { Times(a * d, b, c); }
    if b < a * d { Times(b, a * d, c); }
  }

  lemma Units(a: nat, d: nat, p: nat, m: nat)
    requires d > 0
    ensures a * d == p * d + m <==> m % d == 0 && a == p + m / d
  {
    if a * d == p * d + m {
      assert m == (a - p) * d;
      if a < p { Times(a, p, d); }
      Multiple(a - p, d);
    }
    if m % d == 0 && a == p + m / d {
      Divided(m, d);
      assert (p + m / d) * d == p * d + m / d * d;
    }
  }

  /** What a number read as an integer becomes. */
  function SetInt(dual: bool, k: int): TValue
    requires IsInt32(k)
  {
    if dual then Int(k) else Num(Widen(k).0, Widen(k).1)
  }

  /** The integer that a number is written as, if it is. */
  function Narrowed(dual: bool, o: TValue): Option<int> {
    match o
    case Int(k) => Some(k)
    case Num(lo, hi) => if dual then None else Narrow(lo, hi)
    case _ => None
  }

  /** Constants as they occur: integers only with dual numbers, and no minus zero without them. */
  predicate ConstantOk(dual: bool, o: TValue) {
    && (o.Int? ==> dual && IsInt32(o.i))
    && (o.Num? && !dual ==> !IsMinusZero(o.lo, o.hi))
  }

  /** A number written as an integer is restored when that is read. */
  lemma SetNarrowed(dual: bool, o: TValue)
    requires ConstantOk(dual, o) && Narrowed(dual, o).Some?
    ensures IsInt32(Narrowed(dual, o).value) && SetInt(dual, Narrowed(dual, o).value) == o
    ensures I32(U32(Narrowed(dual, o).value)) == Narrowed(dual, o).value
  {
    hide Narrow, Widen, U32, I32;
    if o.Num? {
      WidenNarrow(o.lo, o.hi);
    }
    BackToInt(Narrowed(dual, o).value);
  }

  lemma BackToInt(k: int)
    requires IsInt32(k)
    ensures I32(U32(k)) == k
  {}
}
