/** The generator coroutines of `examples/coroutines/coroutines_demo.cpp`. A generator is
    modelled by the sequence of values its body yields together with the number of
    times it has been resumed; each generator body is a loop whose yields are proved
    equal to a closed-form sequence. `int` overflow is not modelled. */
module Generators {
  import opened Constexpr

  // ---------------------------------------------------------------------------
  // Generator<T>: resumption protocol
  // ---------------------------------------------------------------------------

  /** A coroutine created suspended (`initial_suspend` is `suspend_always`) whose body
      yields `values` in order and then runs to its final suspension point. */
  datatype Generator = Generator(values: seq<int>, resumes: nat)

  function Start(values: seq<int>): Generator
  {
    Generator(values, 0)
  }

  /** `handle.done()`: the body has returned, which takes one resume past the last yield. */
  predicate Done(g: Generator)
  {
    g.resumes > |g.values|
  }

  /** `next`: resumes a coroutine that is not done and reports whether it stopped at a
      yield; a finished coroutine is left alone and reports false. */
  function Next(g: Generator): (r: (Generator, bool))
    ensures Done(g) ==> r == (g, false)
    ensures r.1 <==> !Done(g) && g.resumes < |g.values|
    ensures r.1 ==> 1 <= r.0.resumes <= |r.0.values|
    ensures r.0.values == g.values
  {
    if Done(g) then (g, false)
    else
      var g' := g.(resumes := g.resumes + 1);
      (g', !Done(g'))
  }

  /** `value`: the value of the most recent yield. */
  function Value(g: Generator): int
    requires 1 <= g.resumes <= |g.values|
  {
    g.values[g.resumes - 1]
  }

  /** The consumer loop `while (gen.next()) use(gen.value());`. */
  function Drain(g: Generator): seq<int>
    requires g.resumes <= |g.values| + 1
    decreases |g.values| + 1 - g.resumes
  {
    var (g', ok) := Next(g);
    if !ok then [] else [Value(g')] + Drain(g')
  }

  /** The consumer sees every remaining yield exactly once, in order. */
  lemma {:induction false} DrainYieldsRest(values: seq<int>, resumes: nat)
    requires resumes <= |values|
    ensures Drain(Generator(values, resumes)) == values[resumes..]
    decreases |values| - resumes
  {
    if resumes < |values| {
      DrainYieldsRest(values, resumes + 1);
      assert values[resumes..] == [values[resumes]] + values[resumes + 1..];
    }
  }

  lemma DrainYieldsAll(values: seq<int>)
    ensures Drain(Start(values)) == values
  {
    DrainYieldsRest(values, 0);
  }

  /** Once `next` has returned false, it keeps returning false and nothing changes. */
  lemma NextAfterFalse(g: Generator)
    requires !Next(g).1
    ensures Next(Next(g).0) == (Next(g).0, false)
  {
  }

  // ---------------------------------------------------------------------------
  // Generator bodies
  // ---------------------------------------------------------------------------

  lemma FibonacciStep(n: nat)
    ensures Fibonacci(n + 2) == Fibonacci(n + 1) + Fibonacci(n)
  {
  }

  function Max0(x: int): nat
  {
    if x < 0 then 0 else x
  }

  /** `fibonacci_generator(count)`: the pair `(a, b)` walks the Fibonacci numbers and `a`
      is yielded `count` times. */
  method FibonacciGenerator(count: int) returns (ys: seq<int>)
    ensures |ys| == Max0(count)
    ensures forall i :: 0 <= i < |ys| ==> ys[i] == Fibonacci(i)
  {
    var a, b := 0, 1;
    ys := [];
    var n := Max0(count);
    for i := 0 to n
      invariant |ys| == i
      invariant a == Fibonacci(i) && b == Fibonacci(i + 1)
      invariant forall k :: 0 <= k < i ==> ys[k] == Fibonacci(k)
    {
      FibonacciStep(i);
      ys := ys + [a];
      var temp := a;
      a := b;
      b := temp + b;
    }
  }

  /** `even_numbers(max)`: 0, 2, 4, ... while not above `max`; nothing for negative `max`. */
  method EvenNumbers(max: int) returns (ys: seq<int>)
    ensures |ys| == if max < 0 then 0 else max / 2 + 1
    ensures forall k :: 0 <= k < |ys| ==> ys[k] == 2 * k
  {
    ys := [];
    var i := 0;
    while i <= max
      invariant i == 2 * |ys|
      invariant max >= 0 ==> |ys| <= max / 2 + 1
      invariant max < 0 ==> |ys| == 0
      invariant forall k :: 0 <= k < |ys| ==> ys[k] == 2 * k
      decreases max - i + 2
    {
      ys := ys + [i];
      i := i + 2;
    }
  }

  /** `lazy_factorial(n)`: the running product `1 * 2 * ... * i`, yielded for i = 1..n. */
  method LazyFactorial(n: int) returns (ys: seq<int>)
    ensures |ys| == Max0(n)
    ensures forall k :: 0 <= k < |ys| ==> ys[k] == Factorial(k + 1)
  {
    var result := 1;
    ys := [];
    var i := 1;
    while i <= n
      invariant 1 <= i == |ys| + 1 && |ys| <= Max0(n)
      invariant result == Factorial(i - 1)
      invariant forall k :: 0 <= k < |ys| ==> ys[k] == Factorial(k + 1)
    {
      result := result * i;
      ys := ys + [result];
      i := i + 1;
    }
  }

  /** The integers from `start` to `end` inclusive. */
  function Range(start: int, end: int): (r: seq<int>)
    ensures |r| == Max0(end - start + 1)
    ensures forall k :: 0 <= k < |r| ==> r[k] == start + k
  {
    seq(Max0(end - start + 1), k => start + k)
  }

  /** `generate_numbers(start, end)`. */
  method GenerateNumbers(start: int, end: int) returns (ys: seq<int>)
    ensures ys == Range(start, end)
  {
    ys := [];
    var i := start;
    while i <= end
      invariant i == start + |ys| && |ys| <= Max0(end - start + 1)
      invariant forall k :: 0 <= k < |ys| ==> ys[k] == start + k
      decreases end - i + 1
    {
      ys := ys + [i];
      i := i + 1;
    }
  }

  predicate IsEven(x: int)
  {
    x % 2 == 0
  }

  /** The even elements, in their original order. */
  function FilterEven(xs: seq<int>): (r: seq<int>)
    ensures |r| <= |xs|
    ensures forall k :: 0 <= k < |r| ==> IsEven(r[k])
    ensures forall k :: 0 <= k < |xs| && IsEven(xs[k]) ==> xs[k] in r
  {
    if |xs| == 0 then []
    else
      var last := xs[|xs| - 1];
      FilterEven(xs[..|xs| - 1]) + (if IsEven(last) then [last] else [])
  }

  /** `filter_even`: a value is passed on exactly when `value % 2 == 0`. */
  method FilterEvenGenerator(input: seq<int>) returns (ys: seq<int>)
    ensures ys == FilterEven(input)
  {
    ys := [];
    var i := 0;
    while i < |input|
      invariant i <= |input|
      invariant ys == FilterEven(input[..i])
    {
      var value := input[i];
      assert input[..i + 1][..i] == input[..i];
      if value % 2 == 0 {
        ys := ys + [value];
      }
      i := i + 1;
    }
    assert input[..i] == input;
  }

  /** Each value squared, in order. */
  function Squares(xs: seq<int>): (r: seq<int>)
    ensures |r| == |xs|
  {
    seq(|xs|, k requires 0 <= k < |xs| => xs[k] * xs[k])
  }

  /** `square_numbers`. */
  method SquareNumbers(input: seq<int>) returns (ys: seq<int>)
    ensures |ys| == |input|
    ensures forall k :: 0 <= k < |ys| ==> ys[k] == input[k] * input[k]
  {
    ys := [];
    var i := 0;
    while i < |input|
      invariant i == |ys| <= |input|
      invariant forall k :: 0 <= k < i ==> ys[k] == input[k] * input[k]
    {
      var value := input[i];
      ys := ys + [value * value];
      i := i + 1;
    }
  }

  // ---------------------------------------------------------------------------
  // Pipeline
  // ---------------------------------------------------------------------------

  /** generate(1, n) -> filter even -> square. */
  function Pipeline(n: int): seq<int>
  {
    Squares(FilterEven(Range(1, n)))
  }

  lemma RangeSnoc(n: nat)
    requires n > 0
    ensures Range(1, n) == Range(1, n - 1) + [n]
  {
    assert Range(1, n)[..n - 1] == Range(1, n - 1);
  }

  lemma FilterEvenSnoc(xs: seq<int>, x: int)
    ensures FilterEven(xs + [x]) == FilterEven(xs) + (if IsEven(x) then [x] else [])
  {
    assert (xs + [x])[..|xs|] == xs;
  }

  /** The even numbers of 1..n are 2, 4, ..., 2 * (n / 2). */
  lemma {:induction false} EvensOfRange(n: nat)
    ensures |FilterEven(Range(1, n))| == n / 2
    ensures forall k :: 0 <= k < n / 2 ==> FilterEven(Range(1, n))[k] == 2 * (k + 1)
  {
    if n > 0 {
      EvensOfRange(n - 1);
      RangeSnoc(n);
      var before := FilterEven(Range(1, n - 1));
      FilterEvenSnoc(Range(1, n - 1), n);
      if n % 2 == 0 {
        assert (n - 1) / 2 + 1 == n / 2;
        assert FilterEven(Range(1, n)) == before + [n];
      } else {
        assert (n - 1) / 2 == n / 2;
        assert FilterEven(Range(1, n)) == before;
      }
    }
  }

  /** The pipeline yields the squares of the even numbers of 1..n, n / 2 of them. */
  lemma PipelineSquaresEvens(n: nat)
    ensures |Pipeline(n)| == n / 2
    ensures forall k :: 0 <= k < n / 2 ==> Pipeline(n)[k] == 4 * (k + 1) * (k + 1)
  {
    EvensOfRange(n);
    var evens := FilterEven(Range(1, n));
    forall k | 0 <= k < n / 2
      ensures Pipeline(n)[k] == 4 * (k + 1) * (k + 1)
    {
      var e := evens[k];
      assert Pipeline(n)[k] == e * e;
      assert e == 2 * (k + 1);
    }
  }

  /** The traditional loop of the performance comparison: `i * i` for each even `i`. */
  method TraditionalSquares(count: int) returns (results: seq<int>)
    ensures results == Pipeline(count)
  {
    results := [];
    var i := 1;
    while i <= count
      invariant 1 <= i && (count >= 0 ==> i <= count + 1) && (count < 1 ==> i == 1)
      invariant results == Pipeline(i - 1)
      decreases count - i + 1
    {
      PipelineStep(i);
      if i % 2 == 0 {
        results := results + [i * i];
      }
      i := i + 1;
    }
    if count < 1 {
      assert Range(1, count) == Range(1, 0);
      assert Pipeline(count) == Pipeline(0);
    }
  }

  lemma PipelineStep(n: nat)
    requires n > 0
    ensures Pipeline(n) == Pipeline(n - 1) + (if n % 2 == 0 then [n * n] else [])
  {
    RangeSnoc(n);
    FilterEvenSnoc(Range(1, n - 1), n);
    var evens := FilterEven(Range(1, n - 1));
    if IsEven(n) {
      assert Squares(evens + [n]) == Squares(evens) + [n * n];
    }
  }

  /** `demonstrate_pipeline`: 4 16 36 64 100. */
  lemma PipelineDemo()
    ensures var r := Pipeline(10);
            |r| == 5 && r[0] == 4 && r[1] == 16 && r[2] == 36 && r[3] == 64 && r[4] == 100
  {
    PipelineSquaresEvens(10);
  }

  /** `demonstrate_generators`: the tenth Fibonacci number is 34 and 5! is 120. */
  lemma GeneratorsDemo()
    ensures Fibonacci(9) == 34
    ensures Factorial(5) == 120
  {
  }
}
