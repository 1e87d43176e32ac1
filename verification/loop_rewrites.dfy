/** The loop rewrites of the performance-optimisation demo: branchy versus "branchless"
    summing, the in-place neighbour update written two ways, and strided versus
    sequential summing. Integer overflow of `int` / `long long` is not modelled. */
module LoopRewrites {
  import opened Seqs
  import opened Arith

  function Abs(x: int): nat
  {
    if x < 0 then -x else x
  }

  /** Reference: the sum of absolute values. */
  function SumAbs(s: seq<int>): int
  {
    if |s| == 0 then 0 else SumAbs(s[..|s| - 1]) + Abs(s[|s| - 1])
  }

  lemma SumAbsPrefixStep(s: seq<int>, i: nat)
    requires i < |s|
    ensures SumAbs(s[..i + 1]) == SumAbs(s[..i]) + Abs(s[i])
  {
    assert s[..i + 1][..i] == s[..i];
  }

  /** `sumWithBranches`: positives are added, everything else is subtracted, so the
      result is the sum of absolute values. */
  method SumWithBranches(data: seq<int>) returns (sum: int)
    ensures sum == SumAbs(data)
  {
    sum := 0;
    var i := 0;
    while i < |data|
      invariant i <= |data|
      invariant sum == SumAbs(data[..i])
    {
      SumAbsPrefixStep(data, i);
      var x := data[i];
      if x > 0 {
        sum := sum + x;
      } else {
        sum := sum - x;
      }
      i := i + 1;
    }
    assert data[..i] == data;
  }

  /** `sign = (x > 0) ? 1 : -1`. */
  function Sign(x: int): int
  {
    if x > 0 then 1 else -1
  }

  /** `sumBranchless` as written: `sum += sign * abs(x)`, which is `x` itself for every `x`,
      so the result is the plain sum, not the sum of absolute values. */
  method SumBranchless(data: seq<int>) returns (sum: int)
    ensures sum == Sum(data)
  {
    sum := 0;
    var i := 0;
    while i < |data|
      invariant i <= |data|
      invariant sum == Sum(data[..i])
    {
      SumPrefixStep(data, i);
      var x := data[i];
      sum := sum + Sign(x) * Abs(x);
      i := i + 1;
    }
    assert data[..i] == data;
  }

  /** `sumBranchless` with the sign applied to `x` instead of `abs(x)`: the branch-free
      rewrite the demo intends, which agrees with `sumWithBranches` on every input. */
  method SumBranchlessCorrected(data: seq<int>) returns (sum: int)
    ensures sum == SumAbs(data)
  {
    sum := 0;
    var i := 0;
    while i < |data|
      invariant i <= |data|
      invariant sum == SumAbs(data[..i])
    {
      SumAbsPrefixStep(data, i);
      var x := data[i];
      sum := sum + Sign(x) * x;
      i := i + 1;
    }
    assert data[..i] == data;
  }

  /** The sum of absolute values equals the plain sum exactly when no element is
      negative: the branchy and branchless sums agree only on such inputs. */
  lemma {:induction false} SumAbsEqualsSumIff(s: seq<int>)
    ensures SumAbs(s) >= Sum(s)
    ensures SumAbs(s) == Sum(s) <==> forall k :: 0 <= k < |s| ==> s[k] >= 0
  {
    if |s| > 0 {
      var p := s[..|s| - 1];
      SumAbsEqualsSumIff(p);
      forall k | 0 <= k < |p|
        ensures p[k] == s[k]
      {
      }
    }
  }

  /** The demo's data (`-i` at multiples of 100, `i` elsewhere) begins 0, 1, ..., 99, -100:
      on it the two sums already differ, so "Results match" prints No. */
  lemma BranchlessDiffersOnDemoData()
    ensures var s := [1, -100]; SumAbs(s) == 101 && Sum(s) == -99
  {
    var s := [1, -100];
    assert s[..1] == [1];
    assert s[..1][..0] == [];
  }

  /** Reference for the neighbour update: element `i < n-1` becomes `2*orig[i] + orig[i+1]`;
      the last becomes `2*orig[n-1]` plus the already-updated first element (or plus
      itself when `n == 1`, where the first and last element coincide). */
  function ProcessedAt(orig: seq<int>, i: nat): int
    requires i < |orig|
  {
    var n := |orig|;
    if i < n - 1 then 2 * orig[i] + orig[i + 1]
    else if n == 1 then 3 * orig[0]
    else 2 * orig[n - 1] + (2 * orig[0] + orig[1])
  }

  function Processed(orig: seq<int>): (r: seq<int>)
    ensures |r| == |orig|
    ensures forall i :: 0 <= i < |orig| ==> r[i] == ProcessedAt(orig, i)
  {
    seq(|orig|, i requires 0 <= i < |orig| => ProcessedAt(orig, i))
  }

  /** The wrap-around index `(i + 1) % n` of the source's loop. */
  lemma NextIndex(i: nat, n: nat)
    requires i < n
    ensures (i + 1) % n == if i + 1 < n then i + 1 else 0
  {
  }

  /** `processDataInefficient`: `data[i] = data[i] * 2 + data[(i + 1) % n]` in place. */
  method ProcessDataInefficient(data: seq<int>) returns (r: seq<int>)
    ensures r == Processed(data)
  {
    r := data;
    var n := |r|;
    var i := 0;
    while i < n
      invariant i <= n && |r| == n
      invariant forall k :: i <= k < n ==> r[k] == data[k]
      invariant forall k :: 0 <= k < i ==> r[k] == ProcessedAt(data, k)
    {
      NextIndex(i, n);
      r := r[i := r[i] * 2 + r[(i + 1) % n]];
      i := i + 1;
    }
  }

  /** `processDataOptimized`: returns at once on empty input, otherwise updates the first
      `n-1` elements from cached neighbours and fixes the last one up from `data[0]`. */
  method ProcessDataOptimized(data: seq<int>) returns (r: seq<int>)
    ensures |data| == 0 ==> r == data
    ensures r == Processed(data)
  {
    r := data;
    if |r| == 0 {
      return;
    }
    var n := |r|;
    var next := r[0];
    var i := 0;
    while i < n - 1
      invariant i <= n - 1 && |r| == n
      invariant forall k :: i <= k < n ==> r[k] == data[k]
      invariant forall k :: 0 <= k < i ==> r[k] == ProcessedAt(data, k)
    {
      var current := r[i];
      var temp := r[i + 1];
      r := r[i := current * 2 + temp];
      next := temp;
      i := i + 1;
    }
    r := r[n - 1 := r[n - 1] * 2 + r[0]];
  }

  /** Reference for the strided walk: the sum of the elements whose index is a multiple
      of `stride`. */
  function SumMultiples(data: seq<int>, stride: nat): int
    requires stride > 0
  {
    if |data| == 0 then 0
    else SumMultiples(data[..|data| - 1], stride)
         + (if (|data| - 1) % stride == 0 then data[|data| - 1] else 0)
  }

  /** Between one multiple `t * s` of the stride and the next, only the first index counts. */
  lemma {:induction false} SumMultiplesStride(data: seq<int>, s: nat, t: nat, j: nat)
    requires s > 0 && t * s < j <= t * s + s && j <= |data|
    ensures SumMultiples(data[..j], s) == SumMultiples(data[..t * s], s) + data[t * s]
    decreases j
  {
    var i := t * s;
    assert data[..j][..j - 1] == data[..j - 1];
    ModOfOffset(t, s, j - 1 - i);
    if j == i + 1 {
      assert (j - 1) % s == 0;
    } else {
      SumMultiplesStride(data, s, t, j - 1);
    }
  }

  /** `sumStrided(data, stride)` with a positive stride: adds `data[i]` for `i = 0, stride, ...`. */
  method SumStrided(data: seq<int>, stride: int) returns (sum: int)
    requires stride > 0
    ensures sum == SumMultiples(data, stride)
  {
    sum := 0;
    var i := 0;
    ghost var taken := 0;
    while i < |data|
      invariant i == taken * stride
      invariant sum == SumMultiples(data[..if i < |data| then i else |data|], stride)
    {
      var j := if i + stride < |data| then i + stride else |data|;
      SumMultiplesStride(data, stride, taken, j);
      sum := sum + data[i];
      i := i + stride;
      taken := taken + 1;
    }
    assert data[..|data|] == data;
  }

  /** `sumSequential`: adds every element. */
  method SumSequential(data: seq<int>) returns (sum: int)
    ensures sum == Sum(data)
  {
    sum := 0;
    var i := 0;
    while i < |data|
      invariant i <= |data|
      invariant sum == Sum(data[..i])
    {
      SumPrefixStep(data, i);
      sum := sum + data[i];
      i := i + 1;
    }
    assert data[..i] == data;
  }

  /** With stride 1 every index is a multiple, so the strided and sequential sums agree. */
  lemma {:induction false} StrideOneIsSequential(data: seq<int>)
    ensures SumMultiples(data, 1) == Sum(data)
  {
    if |data| > 0 {
      StrideOneIsSequential(data[..|data| - 1]);
    }
  }
}
