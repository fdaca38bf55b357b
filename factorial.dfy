/** `CalculatorEngine.factorial`: the product 2·3·…·n computed by a loop,
    with `NaN` for an argument that is negative or not an integer. The
    arithmetic is exact: the double overflowing to `Infinity` is not
    modelled. */
module Factorial {
  import opened JsNumber

  /** The mathematical factorial, by its recurrence. */
  function Fact(n: nat): nat
  {
    if n == 0 then 1 else n * Fact(n - 1)
  }

  /** lo·(lo+1)·…·hi, built from the low end; the empty product is 1. */
  function Product(lo: int, hi: int): int
    decreases hi - lo + 1
  {
    if lo > hi then 1 else lo * Product(lo + 1, hi)
  }

  /** The value `factorial` returns, as a function of its argument. */
  function FactorialOf(n: Number): Number
  {
    if IsNegative(n) || !IsInteger(n) then NaN else Finite(Fact(n.value.Floor) as real)
  }

  /** The source's loop: `result = 1; for (i = 2; i <= n; i++) result *= i`,
      after the guards for bad arguments and for 0 and 1. */
  method Factorial(n: Number) returns (r: Number)
    ensures r == FactorialOf(n)
    ensures r.NaN? <==> IsNegative(n) || !IsInteger(n)
    ensures !r.NaN? ==> r == Finite(Fact(n.value.Floor) as real)
    ensures !r.NaN? ==> r == Finite(Product(2, n.value.Floor) as real)
    ensures n == Finite(0.0) || n == Finite(1.0) ==> r == Finite(1.0)
  {
    if IsNegative(n) || !IsInteger(n) {
      return NaN;
    }
    var x := n.value;
    var k := x.Floor;
    assert k >= 0 && k as real == x;
    if x == 0.0 || x == 1.0 {
      assert Product(2, k) == 1 && Fact(k) == 1;
      return Finite(1.0);
    }
    var result := 1.0;
    var i := 2;
    while i as real <= x
      invariant 2 <= i <= k + 1
      invariant result == Fact(i - 1) as real
      decreases k + 1 - i
    {
      FactStep(i);
      result := result * i as real;
      i := i + 1;
    }
    assert i == k + 1;
    FactIsProduct(k);
    return Finite(result);
  }

  /** One more factor, in the reals the loop multiplies in. */
  lemma FactStep(n: nat)
    requires n >= 1
    ensures Fact(n - 1) as real * n as real == Fact(n) as real
  {
    assert Fact(n) == n * Fact(n - 1);
  }

  /** The recurrence agrees with the product 2·3·…·n that the loop forms. */
  lemma {:induction false} FactIsProduct(n: nat)
    ensures Fact(n) == Product(2, n)
  {
    if n >= 2 {
      FactIsProduct(n - 1);
      ProductSplitTop(2, n);
    }
  }

  lemma {:induction false} ProductSplitTop(lo: int, hi: int)
    requires lo <= hi
    ensures Product(lo, hi) == Product(lo, hi - 1) * hi
    decreases hi - lo
  {
    if lo < hi {
      ProductSplitTop(lo + 1, hi);
    }
  }
}
