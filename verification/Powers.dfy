/** Powers of two, right shifts and one-hot words. */
module Powers {

  function Pow2(n: nat): (r: nat)
    ensures r >= 1
  {
    if n == 0 then 1 else 2 * Pow2(n - 1)
  }

  /** x >> i. */
  function Shr(x: nat, i: nat): nat {
    if i == 0 then x else Shr(x, i - 1) / 2
  }

  lemma {:induction false} ShrBound(x: nat, n: nat, i: nat)
    requires x < Pow2(n) && i <= n
    ensures Shr(x, i) < Pow2(n - i)
  {
    if i > 0 { ShrBound(x, n, i - 1); }
  }

  lemma {:induction false} Pow2Monotone(a: nat, b: nat)
    requires a <= b
    ensures Pow2(a) <= Pow2(b)
  {
    if a < b { Pow2Monotone(a, b - 1); }
  }

  /** The word whose only high bit is bit k. */
  function OneHot(size: nat, k: nat): (w: seq<bool>)
    ensures |w| == size
  {
    seq(size, i => i == k)
  }
}
