/** Powers of two and binary logarithms. */
module Powers {
  function Pow2(n: nat): (r: nat)
    ensures r > 0
  {
    if n == 0 then 1 else 2 * Pow2(n - 1)
  }

  lemma {:induction false} Pow2Mono(a: nat, b: nat)
    requires a <= b
    ensures Pow2(a) <= Pow2(b)
    decreases b
  {
    if a < b {
      Pow2Mono(a, b - 1);
    }
  }

  lemma {:induction false} Pow2Add(a: nat, b: nat)
    ensures Pow2(a + b) == Pow2(a) * Pow2(b)
  {
    if a > 0 {
      Pow2Add(a - 1, b);
    }
  }

  /** lj_fls: index of the highest set bit. */
  function Fls(x: nat): (r: nat)
    requires x > 0
    ensures Pow2(r) <= x < Pow2(r + 1)
  {
    if x == 1 then 0 else Fls(x / 2) + 1
  }

  lemma {:induction false} FlsBelow(x: nat, k: nat)
    requires 0 < x < Pow2(k)
    ensures Fls(x) < k
  {
    if Fls(x) >= k {
      Pow2Mono(k, Fls(x));
    }
  }
}
