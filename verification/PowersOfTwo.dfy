/** Powers of two, as the filters use them for table sizes and masks. */
module PowersOfTwo {

  function Pow2(k: nat): (r: nat)
    ensures r >= 1
  {
    if k == 0 then 1 else 2 * Pow2(k - 1)
  }

  ghost predicate IsPow2(n: nat) {
    exists k: nat :: n == Pow2(k)
  }

  /** The smallest exponent whose power of two is at least m. */
  function NextExponent(m: nat): (k: nat)
    ensures Pow2(k) >= m && forall j: nat :: j < k ==> Pow2(j) < m
  {
    ExponentFrom(m, 0)
  }

  function ExponentFrom(m: nat, k: nat): (r: nat)
    requires forall j: nat :: j < k ==> Pow2(j) < m
    ensures Pow2(r) >= m && forall j: nat :: j < r ==> Pow2(j) < m
    decreases m - Pow2(k)
  {
    if Pow2(k) >= m then k else ExponentFrom(m, k + 1)
  }

  /** The smallest power of two that is at least m. */
  function NextPowerOfTwo(m: nat): (r: nat)
    ensures r >= m && IsPow2(r)
    ensures forall k: nat :: Pow2(k) >= m ==> Pow2(k) >= r
  {
    var e := NextExponent(m);
    assert forall k: nat :: Pow2(k) >= m ==> Pow2(k) >= Pow2(e) by {
      forall k: nat | Pow2(k) >= m ensures Pow2(k) >= Pow2(e) { Pow2Monotone(e, k); }
    }
    Pow2(e)
  }

  lemma {:induction false} Pow2Monotone(j: nat, k: nat)
    requires j <= k
    ensures Pow2(j) <= Pow2(k)
    decreases k - j
  {
    if j < k { Pow2Monotone(j + 1, k); }
  }
}
