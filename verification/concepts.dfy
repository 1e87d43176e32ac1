/** The concept-constrained helpers of `examples/concepts/concepts_demo.cpp`: the bounded
    buffer, the integer calculator and the container algorithms. `int` overflow is not
    modelled; integer division truncates toward zero as in C++. */
module Concepts {
  import opened Wrappers
  import opened Seqs

  // ---------------------------------------------------------------------------
  // Buffer
  // ---------------------------------------------------------------------------

  /** `Buffer<C>`: the stored items and the capacity given to the constructor. */
  datatype Buffer<T> = Buffer(data: seq<T>, maxSize: nat)

  predicate BufferOk<T>(b: Buffer<T>)
  {
    |b.data| <= b.maxSize
  }

  function NewBuffer<T>(maxSize: nat): (b: Buffer<T>)
    ensures BufferOk(b) && b.data == [] && b.maxSize == maxSize
  {
    Buffer([], maxSize)
  }

  /** `Buffer::add`: refused (false, nothing changes) once `size >= max_size`; otherwise
      the item is appended and the call returns true. */
  function BufferAdd<T>(b: Buffer<T>, item: T): (r: (Buffer<T>, bool))
    ensures r.1 <==> |b.data| < b.maxSize
    ensures !r.1 ==> r.0 == b
    ensures r.1 ==> r.0 == Buffer(b.data + [item], b.maxSize)
    ensures BufferOk(b) ==> BufferOk(r.0)
  {
    if |b.data| >= b.maxSize then (b, false) else (Buffer(b.data + [item], b.maxSize), true)
  }

  /** `Buffer::clear`. */
  function BufferClear<T>(b: Buffer<T>): (r: Buffer<T>)
    ensures r.data == [] && r.maxSize == b.maxSize && BufferOk(r)
  {
    Buffer([], b.maxSize)
  }

  /** Adding every item in turn, keeping on after a refusal. */
  function AddAll<T>(b: Buffer<T>, items: seq<T>): Buffer<T>
    decreases |items|
  {
    if |items| == 0 then b else AddAll(BufferAdd(b, items[0]).0, items[1..])
  }

  /** A buffer filled from empty keeps exactly the first `max_size` items offered to it,
      in order, and refuses the rest. */
  lemma {:induction false} FillKeepsPrefix<T>(b: Buffer<T>, items: seq<T>)
    requires BufferOk(b)
    ensures AddAll(b, items).maxSize == b.maxSize
    ensures AddAll(b, items).data == b.data + items[..Min(|items|, b.maxSize - |b.data|)]
    decreases |items|
  {
    if |items| > 0 {
      var next := BufferAdd(b, items[0]).0;
      FillKeepsPrefix(next, items[1..]);
      if |b.data| < b.maxSize {
        var k := Min(|items| - 1, b.maxSize - |b.data| - 1);
        assert items[1..][..k] == items[1..k + 1];
        assert b.data + [items[0]] + items[1..k + 1] == b.data + items[..k + 1];
      } else {
        assert AddAll(next, items[1..]).data == b.data;
        assert items[..0] == [];
      }
    }
  }

  function Min(a: int, b: int): int
  {
    if a < b then a else b
  }

  /** The demo's `Buffer<vector<int>>(5)` offered 1 to 6: it keeps 1 to 5. */
  lemma BufferDemo()
    ensures AddAll(NewBuffer<int>(5), [1, 2, 3, 4, 5, 6]).data == [1, 2, 3, 4, 5]
  {
    var items := [1, 2, 3, 4, 5, 6];
    FillKeepsPrefix(NewBuffer<int>(5), items);
    assert items[..5] == [1, 2, 3, 4, 5];
  }

  // ---------------------------------------------------------------------------
  // Calculator<int>
  // ---------------------------------------------------------------------------

  datatype Calculator = Calculator(value: int)

  function CalcAdd(c: Calculator, other: int): Calculator { Calculator(c.value + other) }
  function CalcMultiply(c: Calculator, other: int): Calculator { Calculator(c.value * other) }
  function CalcSquare(c: Calculator): Calculator { Calculator(c.value * c.value) }
  function CalcReset(c: Calculator): Calculator { Calculator(0) }

  /** `Calculator<int> int_calc(10); add(5); multiply(2);` gives 30, and `reset` returns to
      `T{}` whatever came before. */
  lemma CalculatorDemo(c: Calculator)
    ensures CalcMultiply(CalcAdd(Calculator(10), 5), 2).value == 30
    ensures CalcReset(c).value == 0
    ensures CalcSquare(c).value >= 0
  {
  }

  /** A call on the calculator, and a sequence of calls run in order. */
  datatype CalcOp = AddOp(operand: int) | MultiplyOp(operand: int) | SquareOp | ResetOp

  function CalcApply(c: Calculator, op: CalcOp): Calculator
  {
    match op
    case AddOp(x) => CalcAdd(c, x)
    case MultiplyOp(x) => CalcMultiply(c, x)
    case SquareOp => CalcSquare(c)
    case ResetOp => CalcReset(c)
  }

  function CalcRun(c: Calculator, ops: seq<CalcOp>): Calculator
  {
    if |ops| == 0 then c else CalcApply(CalcRun(c, ops[..|ops| - 1]), ops[|ops| - 1])
  }

  /** Running two call sequences one after the other is running their concatenation. */
  lemma {:induction false} CalcRunAppend(c: Calculator, a: seq<CalcOp>, b: seq<CalcOp>)
    ensures CalcRun(c, a + b) == CalcRun(CalcRun(c, a), b)
    decreases |b|
  {
    if |b| == 0 {
      assert a + b == a;
    } else {
      var init := b[..|b| - 1];
      assert (a + b)[..|a + b| - 1] == a + init;
      CalcRunAppend(c, a, init);
    }
  }

  /** The `add` calls with the given operands. */
  function Adds(xs: seq<int>): (ops: seq<CalcOp>)
    ensures |ops| == |xs| && forall i :: 0 <= i < |xs| ==> ops[i] == AddOp(xs[i])
  {
    seq(|xs|, i requires 0 <= i < |xs| => AddOp(xs[i]))
  }

  /** A run of `add` calls adds the sum of their operands. */
  lemma {:induction false} AddsSum(c: Calculator, xs: seq<int>)
    ensures CalcRun(c, Adds(xs)).value == c.value + Sum(xs)
    decreases |xs|
  {
    if |xs| > 0 {
      var init := xs[..|xs| - 1];
      assert Adds(xs)[..|xs| - 1] == Adds(init);
      AddsSum(c, init);
    }
  }

  /** `reset` forgets every earlier call: what follows starts again from `T{}`. */
  lemma ResetForgets(c: Calculator, before: seq<CalcOp>, after: seq<CalcOp>)
    ensures CalcRun(c, before + [ResetOp] + after) == CalcRun(Calculator(0), after)
  {
    CalcRunAppend(c, before + [ResetOp], after);
    assert (before + [ResetOp])[..|before|] == before;
  }

  /** A run that ends with `square` leaves a non-negative value. */
  lemma SquareLast(c: Calculator, ops: seq<CalcOp>)
    requires |ops| > 0 && ops[|ops| - 1] == SquareOp
    ensures CalcRun(c, ops).value >= 0
  {
  }

  // ---------------------------------------------------------------------------
  // Container algorithms
  // ---------------------------------------------------------------------------

  /** `add_elements`: `count` calls to `push_back(value)`. */
  method AddElements<T>(container: seq<T>, value: T, count: nat) returns (r: seq<T>)
    ensures |r| == |container| + count
    ensures r[..|container|] == container
    ensures forall i :: |container| <= i < |r| ==> r[i] == value
  {
    r := container;
    var i := 0;
    while i < count
      invariant i <= count
      invariant |r| == |container| + i
      invariant r[..|container|] == container
      invariant forall k :: |container| <= k < |r| ==> r[k] == value
    {
      r := r + [value];
      i := i + 1;
    }
  }

  datatype ContainerError = EmptyContainer

  /** `get_middle_element`: an error for an empty container, otherwise the element at
      `size / 2`, which has as many elements before it as after it, or one more. */
  function GetMiddleElement<T>(container: seq<T>): (r: Result<T, ContainerError>)
    ensures r.Err? <==> |container| == 0
    ensures r.Ok? ==> exists k :: 0 <= k < |container| && r.value == container[k]
                        && 0 <= k - (|container| - 1 - k) <= 1
  {
    if |container| == 0 then Err(EmptyContainer)
    else
      var k := |container| / 2;
      assert 0 <= k - (|container| - 1 - k) <= 1;
      Ok(container[k])
  }

  /** Reference count: how many elements satisfy `pred`. */
  function Count<T>(s: seq<T>, pred: T -> bool): nat
  {
    if |s| == 0 then 0 else Count(s[..|s| - 1], pred) + (if pred(s[|s| - 1]) then 1 else 0)
  }

  /** `count_if`: one increment per element that satisfies the predicate. */
  method CountIf<T>(container: seq<T>, pred: T -> bool) returns (count: nat)
    ensures count == Count(container, pred)
    ensures count <= |container|
  {
    count := 0;
    var i := 0;
    while i < |container|
      invariant i <= |container|
      invariant count == Count(container[..i], pred) <= i
    {
      assert container[..i + 1][..i] == container[..i];
      if pred(container[i]) {
        count := count + 1;
      }
      i := i + 1;
    }
    assert container[..i] == container;
  }

  /** Every element is counted by exactly one of a predicate and its negation. */
  lemma {:induction false} CountComplement<T>(s: seq<T>, pred: T -> bool)
    ensures Count(s, pred) + Count(s, x => !pred(x)) == |s|
    decreases |s|
  {
    if |s| > 0 {
      CountComplement(s[..|s| - 1], pred);
    }
  }

  /** The demo's even count over 1 to 10. */
  lemma EvenCountDemo()
    ensures Count([1, 2, 3, 4, 5, 6, 7, 8, 9, 10], IsEven) == 5
  {
    var s := [1, 2, 3, 4, 5, 6, 7, 8, 9, 10];
    var k := 0;
    while k < |s|
      invariant k <= |s|
      invariant Count(s[..k], IsEven) == k / 2
    {
      CountSnoc(s, k, IsEven);
      k := k + 1;
    }
    assert s[..k] == s;
  }

  predicate IsEven(x: int)
  {
    x % 2 == 0
  }

  lemma CountSnoc<T>(s: seq<T>, k: nat, pred: T -> bool)
    requires k < |s|
    ensures Count(s[..k + 1], pred) == Count(s[..k], pred) + (if pred(s[k]) then 1 else 0)
  {
    assert s[..k + 1][..k] == s[..k];
  }

  /** The loop of `find_max`: the current best moves to a later element only when the
      comparator prefers it to the current best. */
  function Best<T>(s: seq<T>, comp: (T, T) -> bool): (r: T)
    requires |s| > 0
    ensures r in s
  {
    if |s| == 1 then s[0]
    else
      var b := Best(s[..|s| - 1], comp);
      if comp(s[|s| - 1], b) then s[|s| - 1] else b
  }

  /** `find_max`: an error for an empty container, otherwise the element the loop keeps. */
  function FindMax<T>(container: seq<T>, comp: (T, T) -> bool): (r: Result<T, ContainerError>)
    ensures r.Err? <==> |container| == 0
    ensures r.Ok? ==> r.value in container
  {
    if |container| == 0 then Err(EmptyContainer) else Ok(Best(container, comp))
  }

  /** With the demo's comparator `a > b`, `find_max` returns an element no other element
      exceeds. */
  lemma {:induction false} FindMaxIsMaximum(s: seq<int>)
    requires |s| > 0
    ensures var m := Best(s, (a: int, b: int) => a > b); forall i :: 0 <= i < |s| ==> s[i] <= m
    decreases |s|
  {
    if |s| > 1 {
      FindMaxIsMaximum(s[..|s| - 1]);
      forall i | 0 <= i < |s| - 1
        ensures s[i] == s[..|s| - 1][i]
      {
      }
    }
  }

  /** `calculate_average<int>`: `T{}` for no values, otherwise the sum divided by the
      count with C++'s truncating division. */
  function CalculateAverage(values: seq<int>): int
  {
    if |values| == 0 then 0 else TruncDiv(Sum(values), |values|)
  }

  /** C++ integer division for a positive divisor: the quotient rounded toward zero. */
  function TruncDiv(a: int, b: int): (q: int)
    requires b > 0
    ensures a >= 0 ==> 0 <= a - q * b < b
    ensures a < 0 ==> 0 <= q * b - a < b
  {
    if a >= 0 then a / b else -((-a) / b)
  }

  /** The average of values that all lie in `[lo, hi]` lies in `[lo, hi]` too. */
  lemma AverageWithinBounds(values: seq<int>, lo: int, hi: int)
    requires |values| > 0
    requires forall i :: 0 <= i < |values| ==> lo <= values[i] <= hi
    ensures lo <= CalculateAverage(values) <= hi
  {
    var n, s := |values|, Sum(values);
    SumBounds(values, lo, hi);
    var q := TruncDiv(s, n);
    if s >= 0 {
      MulCancel(lo, q + 1, n);
      MulCancel(q, hi, n);
    } else {
      MulCancel(lo, q, n);
      MulCancel(q - 1, hi, n);
    }
  }

  lemma MulCancel(a: int, b: int, n: int)
    requires n > 0
    ensures a * n <= b * n <==> a <= b
  {
    if a <= b {
      assert b * n - a * n == (b - a) * n;
    } else {
      assert a * n - b * n == (a - b) * n;
    }
  }

  lemma {:induction false} SumBounds(values: seq<int>, lo: int, hi: int)
    requires forall i :: 0 <= i < |values| ==> lo <= values[i] <= hi
    ensures |values| * lo <= Sum(values) <= |values| * hi
    decreases |values|
  {
    if |values| > 0 {
      var init := values[..|values| - 1];
      SumBounds(init, lo, hi);
      assert |values| * lo == |init| * lo + lo;
      assert |values| * hi == |init| * hi + hi;
    }
  }

  /** The demo's integer average of 1 to 5. */
  lemma AverageDemo()
    ensures CalculateAverage([1, 2, 3, 4, 5]) == 3
  {
    var s := [1, 2, 3, 4, 5];
    var k := 0;
    while k < |s|
      invariant k <= |s|
      invariant Sum(s[..k]) == k * (k + 1) / 2
    {
      SumPrefixStep(s, k);
      k := k + 1;
    }
    assert s[..k] == s;
  }
}
