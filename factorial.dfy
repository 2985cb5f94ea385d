/** The factorial of an integer; every argument below 2 gives 1. */
module Factorials {

  function Factorial(n: int): (r: int)
    ensures r >= 1
    ensures n >= 1 ==> r >= n
    decreases n
  {
    if n <= 1 then 1 else n * Factorial(n - 1)
  }

  /** The product `lo * (lo + 1) * ... * hi`, empty (1) when `lo > hi`. */
  function Product(lo: int, hi: int): (r: int)
    decreases hi - lo
  {
    if lo > hi then 1 else lo * Product(lo + 1, hi)
  }

  /** Taking the top factor off a product. */
  lemma {:induction false} ProductTop(lo: int, hi: int)
    requires lo <= hi
    ensures Product(lo, hi) == Product(lo, hi - 1) * hi
    decreases hi - lo
  {
    if lo < hi {
      ProductTop(lo + 1, hi);
    }
  }

  /** The recursive definition agrees with the product of `1..n`. */
  lemma {:induction false} FactorialIsProduct(n: int)
    ensures Factorial(n) == Product(1, n)
    decreases n
  {
    if n > 1 {
      FactorialIsProduct(n - 1);
      ProductTop(1, n);
    }
  }

  /** Every `k` in `1..n` divides `n!`: the lemma returns the cofactor. */
  lemma {:induction false} FactorialDivisible(n: int, k: int) returns (q: int)
    requires 1 <= k <= n
    ensures Factorial(n) == k * q
    decreases n
  {
    if k == n {
      q := Factorial(n - 1);
    } else {
      var q' := FactorialDivisible(n - 1, k);
      q := n * q';
      calc {
        Factorial(n);
        n * Factorial(n - 1);
        n * (k * q');
        k * (n * q');
      }
    }
  }

  /** One step up never decreases the factorial. */
  lemma FactorialStep(n: int)
    ensures Factorial(n - 1) <= Factorial(n)
  {
  }

  /** `n!` never decreases as `n` grows. */
  lemma {:induction false} FactorialMonotone(m: int, n: int)
    requires m <= n
    ensures Factorial(m) <= Factorial(n)
    decreases n - m
  {
    if m < n {
      FactorialMonotone(m, n - 1);
      FactorialStep(n);
    }
  }
}
