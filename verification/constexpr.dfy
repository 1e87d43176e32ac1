/** The compile-time (constexpr) integer functions of the template-metaprogramming demo:
    factorial, Fibonacci, trial-division primality, recursive array sum and `all_of`.
    Machine widths (`unsigned int`, `unsigned long long`) are not modelled: the
    functions work on unbounded naturals. */
module Constexpr {
  import opened Seqs
  import opened Arith

  /** `factorial(n)`: 1 for `n <= 1`, otherwise `n * factorial(n - 1)`. */
  function Factorial(n: nat): (r: nat)
    ensures r >= 1
  {
    if n <= 1 then 1 else n * Factorial(n - 1)
  }

  /** Independent reference: the product `lo * (lo+1) * ... * hi` (1 when empty). */
  function Product(lo: nat, hi: nat): nat
    decreases hi - lo
  {
    if lo > hi then 1 else lo * Product(lo + 1, hi)
  }

  lemma {:induction false} ProductSplitLast(lo: nat, hi: nat)
    requires 1 <= lo <= hi
    ensures Product(lo, hi) == Product(lo, hi - 1) * hi
    decreases hi - lo
  {
    if lo == hi {
      assert Product(lo + 1, hi) == 1;
      assert Product(lo, hi - 1) == 1;
    } else {
      ProductSplitLast(lo + 1, hi);
      var p := Product(lo + 1, hi - 1);
      assert Product(lo, hi) == lo * (p * hi);
      assert Product(lo, hi - 1) == lo * p;
      MulAssoc(lo, p, hi);
    }
  }

  /** The recursive factorial is the product of `1..n`. */
  lemma {:induction false} FactorialIsProduct(n: nat)
    ensures Factorial(n) == Product(1, n)
  {
    if n <= 1 {
      if n == 1 {
        assert Product(2, 1) == 1;
      }
    } else {
      FactorialIsProduct(n - 1);
      ProductSplitLast(1, n);
    }
  }

  /** The value the demo prints, `Factorial(5) = 120`. */
  lemma FactorialOfFive()
    ensures Factorial(5) == 120
  {
  }

  /** `fibonacci(n)`: `n` for `n <= 1`, otherwise the sum of the two previous values. */
  function Fibonacci(n: nat): nat
  {
    if n <= 1 then n else Fibonacci(n - 1) + Fibonacci(n - 2)
  }

  /** Independent reference: the iterative pair recurrence `(a, b) := (b, a + b)`,
      started from `(0, 1)` and run `n` times; its first component is F(n). */
  function FibPair(n: nat): (int, int)
  {
    if n == 0 then (0, 1) else var p := FibPair(n - 1); (p.1, p.0 + p.1)
  }

  lemma {:induction false} FibPairIsFibonacci(n: nat)
    ensures FibPair(n) == (Fibonacci(n), Fibonacci(n + 1))
  {
    if n > 0 {
      FibPairIsFibonacci(n - 1);
    }
  }

  /** The value the demo prints, `Fibonacci(10) = 55`. */
  lemma FibonacciOfTen()
    ensures Fibonacci(10) == 55
  {
  }

  /** Fibonacci is monotone from index 1 on: each value is at least the previous one. */
  lemma {:induction false} FibonacciMonotone(n: nat)
    ensures Fibonacci(n) <= Fibonacci(n + 1)
  {
    if n >= 1 {
      assert Fibonacci(n + 1) == Fibonacci(n) + Fibonacci(n - 1);
    }
  }

  /** `is_prime(n, divisor)`: trial division by `divisor, divisor+1, ...` while
      `divisor * divisor <= n`. */
  function IsPrimeFrom(n: nat, divisor: nat): bool
    requires divisor >= 2
    decreases n + 1 - divisor
  {
    if n < 2 then false
    else if divisor * divisor > n then true
    else if n % divisor == 0 then false
    else IsPrimeFrom(n, divisor + 1)
  }

  /** `is_prime(n)` with the default divisor 2. */
  function IsPrime(n: nat): bool
  {
    IsPrimeFrom(n, 2)
  }

  /** `d` divides `n` and is a proper, non-trivial divisor. */
  predicate ProperDivisor(n: nat, d: nat)
  {
    2 <= d < n && n % d == 0
  }

  /** The mathematical notion the trial division decides. */
  predicate Prime(n: nat)
  {
    n >= 2 && forall d :: 2 <= d < n ==> n % d != 0
  }

  /** No divisor `d` with `lo <= d` and `d * d <= n`. */
  ghost predicate NoSmallDivisorFrom(n: nat, lo: nat)
  {
    forall d :: lo <= d && d * d <= n ==> (d == 0 || n % d != 0)
  }

  /** Trial division from `divisor` answers "n >= 2 and no divisor in [divisor, sqrt n]". */
  lemma {:induction false} IsPrimeFromSpec(n: nat, divisor: nat)
    requires divisor >= 2
    ensures IsPrimeFrom(n, divisor) <==> n >= 2 && NoSmallDivisorFrom(n, divisor)
    decreases n + 1 - divisor
  {
    if n < 2 {
    } else if divisor * divisor > n {
      forall d: nat | divisor <= d
        ensures d * d > n
      {
        MulMonotone(divisor, d);
      }
    } else if n % divisor == 0 {
    } else {
      IsPrimeFromSpec(n, divisor + 1);
    }
  }

  lemma MulMonotone(a: nat, b: nat)
    requires a <= b
    ensures a * a <= b * b
  {
    assert a * a <= a * b;
    assert a * b <= b * b;
  }

  /** `is_prime(n)` is false below 2 and, from 2 on, true exactly when no `d >= 2` with
      `d * d <= n` divides `n`; the demo's cases 17 and 15 come out prime and not prime. */
  lemma IsPrimeTrialDivision(n: nat)
    ensures n < 2 ==> !IsPrime(n)
    ensures IsPrime(n) <==> n >= 2 && forall d :: 2 <= d && d * d <= n ==> n % d != 0
  {
    IsPrimeFromSpec(n, 2);
  }

  /** A composite number has a proper divisor no larger than its square root. */
  lemma SmallCofactor(n: nat, d: nat) returns (e: nat)
    requires ProperDivisor(n, d)
    ensures ProperDivisor(n, e) && e * e <= n
  {
    var q := n / d;
    assert n == d * q + n % d;
    assert n == d * q;
    if q <= 1 {
      MulLeft(d, q, 1);
    }
    assert q >= 2;
    MulLeft(q, 2, d);
    assert q < n;
    ProductDivides(n, q, d);
    if d * d <= n {
      e := d;
    } else {
      e := q;
      if q > d {
        MulLeft(d, d, q);
      }
      MulLeft(q, q, d);
    }
  }

  /** Checking divisors up to the square root decides primality exactly. */
  lemma IsPrimeIsPrime(n: nat)
    ensures IsPrime(n) <==> Prime(n)
  {
    IsPrimeTrialDivision(n);
    if IsPrime(n) {
      forall d | 2 <= d < n
        ensures n % d != 0
      {
        if n % d == 0 {
          var e := SmallCofactor(n, d);
          assert false;
        }
      }
    }
    if Prime(n) {
      forall d | 2 <= d && d * d <= n
        ensures n % d != 0
      {
        MulLeft(d, 2, d);
      }
    }
  }

  /** The demo's checks: 17 is prime, 15 is not. */
  lemma PrimeExamples()
    ensures IsPrime(17)
    ensures !IsPrime(15)
  {
    assert IsPrimeFrom(15, 3) == false;
    assert IsPrimeFrom(17, 5) == true;
  }

  /** `array_sum(arr, index)`: `arr[index] + array_sum(arr, index+1)`, and `T{}` (0) past the end. */
  function ArraySum(arr: seq<int>, index: nat): (r: int)
    decreases |arr| - index
  {
    if index >= |arr| then 0 else arr[index] + ArraySum(arr, index + 1)
  }

  /** The recursion from the front adds up exactly the elements from `index` on. */
  lemma {:induction false} ArraySumIsSum(arr: seq<int>, index: nat)
    requires index <= |arr|
    ensures ArraySum(arr, index) == Sum(arr[index..])
    decreases |arr| - index
  {
    if index == |arr| {
    } else {
      ArraySumIsSum(arr, index + 1);
      assert arr[index..] == [arr[index]] + arr[index + 1..];
      SumAppend([arr[index]], arr[index + 1..]);
      assert Sum([arr[index]]) == arr[index] by {
        assert [arr[index]][..0] == [];
      }
    }
  }

  /** The demo's array {1,2,3,4,5} sums to 15. */
  lemma ArraySumExample()
    ensures ArraySum([1, 2, 3, 4, 5], 0) == 15
  {
  }

  /** `all_of(arr, pred, index)`: vacuously true past the end, otherwise
      `pred(arr[index]) && all_of(arr, pred, index + 1)`. */
  function AllOf<T>(arr: seq<T>, pred: T -> bool, index: nat): (r: bool)
    ensures r <==> forall k :: index <= k < |arr| ==> pred(arr[k])
    decreases |arr| - index
  {
    if index >= |arr| then true else pred(arr[index]) && AllOf(arr, pred, index + 1)
  }

  /** The demo: {1,2,3,4,5} is not all even but is all positive; an empty array is all-anything. */
  lemma AllOfExamples()
    ensures !AllOf([1, 2, 3, 4, 5], (x: int) => x % 2 == 0, 0)
    ensures AllOf([1, 2, 3, 4, 5], (x: int) => x > 0, 0)
    ensures forall p: int -> bool :: AllOf([], p, 0)
  {
    assert !((x: int) => x % 2 == 0)(1);
  }
}
