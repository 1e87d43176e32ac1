/** The patterns of `examples/design_patterns/design_patterns_demo.cpp` that carry logic:
    the shape factory, the observer list, the sorting strategies, the coffee decorators
    and the remote control's bounds-checked dispatch. Console output is not modelled;
    where a call only prints, the model returns what it acts on. */
module DesignPatterns {
  import opened Wrappers

  // ---------------------------------------------------------------------------
  // Factory
  // ---------------------------------------------------------------------------

  datatype Shape = Circle | Rectangle | Triangle

  /** The type name the factory maps to each shape. */
  function ShapeName(s: Shape): string
  {
    match s
    case Circle => "circle"
    case Rectangle => "rectangle"
    case Triangle => "triangle"
  }

  /** `ShapeFactory::createShape`: a shape for the three known names, null for any other. */
  function CreateShape(kind: string): (r: Option<Shape>)
    ensures r.None? <==> kind != "circle" && kind != "rectangle" && kind != "triangle"
    ensures r.Some? ==> ShapeName(r.value) == kind
  {
    if kind == "circle" then Some(Circle)
    else if kind == "rectangle" then Some(Rectangle)
    else if kind == "triangle" then Some(Triangle)
    else None
  }

  /** Every shape is created from its name, so the factory reaches all three. */
  lemma CreateFromName(s: Shape)
    ensures CreateShape(ShapeName(s)) == Some(s)
  {
  }

  // ---------------------------------------------------------------------------
  // Observer
  // ---------------------------------------------------------------------------

  /** An observer is known by its address; here by a number. */
  type ObserverId = nat

  /** `Subject::addObserver`: `push_back`, duplicates allowed. */
  function AddObserver(observers: seq<ObserverId>, o: ObserverId): (r: seq<ObserverId>)
    ensures |r| == |observers| + 1 && r[..|observers|] == observers && r[|observers|] == o
  {
    observers + [o]
  }

  /** `Subject::removeObserver`: the erase-remove idiom, which drops every occurrence of
      `o` and keeps the others in their order. */
  function RemoveObserver(observers: seq<ObserverId>, o: ObserverId): (r: seq<ObserverId>)
    ensures o !in r
    ensures forall x :: x != o ==> multiset(r)[x] == multiset(observers)[x]
  {
    if |observers| == 0 then []
    else
      var rest := RemoveObserver(observers[..|observers| - 1], o);
      var last := observers[|observers| - 1];
      assert observers == observers[..|observers| - 1] + [last];
      if last == o then rest else rest + [last]
  }

  /** Removing an observer that was not registered leaves the list as it was. */
  lemma {:induction false} RemoveAbsent(observers: seq<ObserverId>, o: ObserverId)
    requires o !in observers
    ensures RemoveObserver(observers, o) == observers
    decreases |observers|
  {
    if |observers| > 0 {
      var init := observers[..|observers| - 1];
      assert observers == init + [observers[|observers| - 1]];
      RemoveAbsent(init, o);
    }
  }

  /** Removal works on each part of a list separately, so the observers that stay keep
      their relative order. */
  lemma {:induction false} RemoveDistributes(a: seq<ObserverId>, b: seq<ObserverId>, o: ObserverId)
    ensures RemoveObserver(a + b, o) == RemoveObserver(a, o) + RemoveObserver(b, o)
    decreases |b|
  {
    if |b| == 0 {
      assert a + b == a;
    } else {
      var init, last := b[..|b| - 1], b[|b| - 1];
      assert (a + b)[..|a + b| - 1] == a + init;
      assert (a + b)[|a + b| - 1] == last;
      RemoveDistributes(a, init, o);
    }
  }

  /** Adding a new observer and then removing it is no change at all. */
  lemma RemoveUndoesAdd(observers: seq<ObserverId>, o: ObserverId)
    requires o !in observers
    ensures RemoveObserver(AddObserver(observers, o), o) == observers
  {
    var added := AddObserver(observers, o);
    assert added[..|added| - 1] == observers;
    RemoveAbsent(observers, o);
  }

  /** `Subject::notifyObservers`: one delivery of the message to each observer, in list
      order. */
  function Notify(observers: seq<ObserverId>, message: string): (r: seq<(ObserverId, string)>)
    ensures |r| == |observers|
    ensures forall i :: 0 <= i < |r| ==> r[i] == (observers[i], message)
  {
    seq(|observers|, i requires 0 <= i < |observers| => (observers[i], message))
  }

  /** Attaching an observer adds one delivery, to it, after all the others. */
  lemma NotifyAppend(observers: seq<ObserverId>, o: ObserverId, message: string)
    ensures Notify(AddObserver(observers, o), message) == Notify(observers, message) + [(o, message)]
  {
  }

  /** Each observer receives the message once per time it is attached. */
  lemma {:induction false} NotifyCounts(observers: seq<ObserverId>, message: string, x: ObserverId)
    ensures multiset(Notify(observers, message))[(x, message)] == multiset(observers)[x]
    decreases |observers|
  {
    if |observers| > 0 {
      var init, last := observers[..|observers| - 1], observers[|observers| - 1];
      assert AddObserver(init, last) == observers;
      NotifyAppend(init, last, message);
      NotifyCounts(init, message, x);
    }
  }

  /** After `removeObserver(o)` the message no longer reaches `o`, and reaches every
      other observer as often as before. */
  lemma NotifyAfterRemove(observers: seq<ObserverId>, o: ObserverId, message: string)
    ensures (o, message) !in Notify(RemoveObserver(observers, o), message)
    ensures forall x :: x != o ==>
              multiset(Notify(RemoveObserver(observers, o), message))[(x, message)]
              == multiset(Notify(observers, message))[(x, message)]
  {
    var r := RemoveObserver(observers, o);
    NotifyCounts(r, message, o);
    forall x | x != o
      ensures multiset(Notify(r, message))[(x, message)] == multiset(Notify(observers, message))[(x, message)]
    {
      NotifyCounts(r, message, x);
      NotifyCounts(observers, message, x);
    }
  }

  /** `demonstrateObserver`: three subscribers, then the second is removed, so the last
      news reaches only the first and the third. */
  lemma ObserverDemo()
    ensures Notify(RemoveObserver(AddObserver(AddObserver(AddObserver([], 1), 2), 3), 2), "final")
         == [(1, "final"), (3, "final")]
  {
    var three := AddObserver(AddObserver(AddObserver([], 1), 2), 3);
    assert three == [1, 2, 3];
    assert three[..2] == [1, 2] && three[..2][..1] == [1] && three[..2][..1][..0] == [];
  }

  // ---------------------------------------------------------------------------
  // Strategy: the two sorts
  // ---------------------------------------------------------------------------

  predicate SortedAsc(s: seq<int>)
  {
    forall i, j :: 0 <= i < j < |s| ==> s[i] <= s[j]
  }

  /** `BubbleSort::sort`. The outer bound `data.size() - 1` wraps around for an empty
      vector, so a non-empty input is required. */
  method BubbleSort(data: seq<int>) returns (r: seq<int>)
    requires |data| > 0
    ensures SortedAsc(r)
    ensures multiset(r) == multiset(data)
  {
    r := data;
    var n := |r|;
    var i := 0;
    while i < n - 1
      invariant 0 <= i <= n - 1
      invariant |r| == n && multiset(r) == multiset(data)
      invariant forall a, b :: n - i <= a < b < n ==> r[a] <= r[b]
      invariant forall a, b :: 0 <= a < n - i <= b < n ==> r[a] <= r[b]
    {
      r := BubblePass(r, n - i);
      i := i + 1;
    }
  }

  /** The inner loop of `BubbleSort::sort` over the first `m` elements: adjacent
      out-of-order pairs are swapped, which carries the largest of them to index `m - 1`
      and touches nothing from `m` on. */
  method BubblePass(s: seq<int>, m: nat) returns (r: seq<int>)
    requires 1 <= m <= |s|
    requires forall a, b :: 0 <= a < m <= b < |s| ==> s[a] <= s[b]
    ensures |r| == |s| && multiset(r) == multiset(s)
    ensures forall b :: m <= b < |s| ==> r[b] == s[b]
    ensures forall a :: 0 <= a < m ==> r[a] <= r[m - 1]
    ensures forall a, b :: 0 <= a < m <= b < |s| ==> r[a] <= r[b]
  {
    r := s;
    var j := 0;
    while j < m - 1
      invariant 0 <= j <= m - 1
      invariant |r| == |s| && multiset(r) == multiset(s)
      invariant forall b :: m <= b < |s| ==> r[b] == s[b]
      invariant forall a :: 0 <= a <= j ==> r[a] <= r[j]
      invariant forall a, b :: 0 <= a < m <= b < |s| ==> r[a] <= r[b]
    {
      var r' := r;
      if r[j] > r[j + 1] {
        r' := r[j := r[j + 1]][j + 1 := r[j]];
      }
      BubbleStep(s, m, j, r, r');
      r := r';
      j := j + 1;
    }
  }

  /** One compare-and-swap of the inner loop keeps its invariant. */
  lemma BubbleStep(s: seq<int>, m: nat, j: nat, r: seq<int>, r': seq<int>)
    requires j + 1 < m <= |s| == |r|
    requires multiset(r) == multiset(s)
    requires forall b :: m <= b < |s| ==> r[b] == s[b]
    requires forall a :: 0 <= a <= j ==> r[a] <= r[j]
    requires forall a, b :: 0 <= a < m <= b < |s| ==> r[a] <= r[b]
    requires r' == if r[j] > r[j + 1] then r[j := r[j + 1]][j + 1 := r[j]] else r
    ensures |r'| == |s| && multiset(r') == multiset(s)
    ensures forall b :: m <= b < |s| ==> r'[b] == s[b]
    ensures forall a :: 0 <= a <= j + 1 ==> r'[a] <= r'[j + 1]
    ensures forall a, b :: 0 <= a < m <= b < |s| ==> r'[a] <= r'[b]
  {
    if r[j] > r[j + 1] {
      assert r' == r[j := r[j + 1]][j + 1 := r[j]];
      assert multiset(r') == multiset(r);
    }
  }

  /** The elements of `s` below `pivot`, in order. */
  function Below(s: seq<int>, pivot: int): (r: seq<int>)
    ensures |r| <= |s|
    ensures forall i :: 0 <= i < |r| ==> r[i] < pivot
  {
    if |s| == 0 then []
    else Below(s[..|s| - 1], pivot) + (if s[|s| - 1] < pivot then [s[|s| - 1]] else [])
  }

  /** The elements of `s` at or above `pivot`, in order. */
  function AtLeast(s: seq<int>, pivot: int): (r: seq<int>)
    ensures |r| <= |s|
    ensures forall i :: 0 <= i < |r| ==> r[i] >= pivot
  {
    if |s| == 0 then []
    else AtLeast(s[..|s| - 1], pivot) + (if s[|s| - 1] >= pivot then [s[|s| - 1]] else [])
  }

  /** One more element goes to exactly one side. */
  lemma SplitSnoc(s: seq<int>, x: int, pivot: int)
    ensures Below(s + [x], pivot) == Below(s, pivot) + (if x < pivot then [x] else [])
    ensures AtLeast(s + [x], pivot) == AtLeast(s, pivot) + (if x >= pivot then [x] else [])
  {
    assert (s + [x])[..|s|] == s;
  }

  /** Splitting on a pivot loses and invents nothing. */
  lemma {:induction false} SplitIsPermutation(s: seq<int>, pivot: int)
    ensures multiset(Below(s, pivot)) + multiset(AtLeast(s, pivot)) == multiset(s)
    decreases |s|
  {
    if |s| > 0 {
      SplitIsPermutation(s[..|s| - 1], pivot);
      assert s == s[..|s| - 1] + [s[|s| - 1]];
    }
  }

  /** `data` without the element at index `m`. */
  function Without(s: seq<int>, m: nat): (r: seq<int>)
    requires m < |s|
    ensures |r| == |s| - 1
    ensures multiset(r) + multiset{s[m]} == multiset(s)
  {
    assert s == s[..m] + [s[m]] + s[m + 1..];
    s[..m] + s[m + 1..]
  }

  /** `QuickSort::sort` as written: one partition step around the middle element
      `data[size/2]`, with no recursion into the two sides. */
  function Partition(data: seq<int>): seq<int>
  {
    if |data| <= 1 then data
    else
      var m := |data| / 2;
      var rest := Without(data, m);
      Below(rest, data[m]) + [data[m]] + AtLeast(rest, data[m])
  }

  /** The loop of `QuickSort::sort`: every index but the pivot's goes to `left` if its
      value is below the pivot and to `right` otherwise; then `left + pivot + right`. */
  method QuickSortStep(data: seq<int>) returns (r: seq<int>)
    ensures r == Partition(data)
  {
    if |data| <= 1 {
      return data;
    }
    var m := |data| / 2;
    var pivot := data[m];
    var left: seq<int> := [];
    var right: seq<int> := [];
    var i := 0;
    while i < |data|
      invariant i <= |data|
      invariant left == Below(Skipping(data, m, i), pivot)
      invariant right == AtLeast(Skipping(data, m, i), pivot)
    {
      left, right := Distribute(data, m, i, left, right);
      i := i + 1;
    }
    assert Skipping(data, m, i) == Without(data, m);
    left := left + [pivot];
    r := left + right;
  }

  /** One iteration of the partition loop: index `i` goes to the side its value belongs
      to, unless it is the pivot's own index. */
  method Distribute(data: seq<int>, m: nat, i: nat, left: seq<int>, right: seq<int>)
    returns (left': seq<int>, right': seq<int>)
    requires m < |data| && i < |data|
    requires left == Below(Skipping(data, m, i), data[m])
    requires right == AtLeast(Skipping(data, m, i), data[m])
    ensures left' == Below(Skipping(data, m, i + 1), data[m])
    ensures right' == AtLeast(Skipping(data, m, i + 1), data[m])
  {
    var pivot := data[m];
    SkippingStep(data, m, i);
    left', right' := left, right;
    if i != m {
      SplitSnoc(Skipping(data, m, i), data[i], pivot);
      if data[i] < pivot {
        left' := left + [data[i]];
      } else {
        right' := right + [data[i]];
      }
    } else {
      assert Skipping(data, m, i + 1) == Skipping(data, m, i);
    }
  }

  /** The first `i` elements of `data` with index `m` left out. */
  function Skipping(data: seq<int>, m: nat, i: nat): seq<int>
    requires m < |data| && i <= |data|
  {
    if i <= m then data[..i] else data[..m] + data[m + 1..i]
  }

  lemma SkippingStep(data: seq<int>, m: nat, i: nat)
    requires m < |data| && i < |data|
    ensures Skipping(data, m, i + 1) == Skipping(data, m, i) + (if i == m then [] else [data[i]])
  {
    if i < m {
      assert data[..i + 1] == data[..i] + [data[i]];
    } else if i > m {
      assert data[m + 1..i + 1] == data[m + 1..i] + [data[i]];
    }
  }

  /** The pieces `left + [pivot] + right` with every left value below the pivot and every
      right value at or above it. */
  lemma AroundPivot(lo: seq<int>, p: int, hi: seq<int>)
    requires forall i :: 0 <= i < |lo| ==> lo[i] < p
    requires forall i :: 0 <= i < |hi| ==> hi[i] >= p
    ensures var r := lo + [p] + hi;
      && r[|lo|] == p
      && (forall i :: 0 <= i < |lo| ==> r[i] < p)
      && (forall i :: |lo| < i < |r| ==> r[i] >= p)
  {
    var r := lo + [p] + hi;
    forall i | |lo| < i < |r|
      ensures r[i] >= p
    {
      assert r[i] == hi[i - |lo| - 1];
    }
  }

  /** A vector of at most one element is left alone. A longer one keeps every element,
      gets the pivot `data[size/2]` at index `k`, everything before it below the pivot
      and everything after it at or above it. */
  lemma PartitionSplitsAroundPivot(data: seq<int>)
    ensures |data| <= 1 ==> Partition(data) == data
    ensures |data| > 1 ==>
      var r := Partition(data); var p := data[|data| / 2];
      && multiset(r) == multiset(data)
      && var k := |Below(Without(data, |data| / 2), p)|;
      && r[k] == p
      && (forall i :: 0 <= i < k ==> r[i] < p)
      && (forall i :: k < i < |r| ==> r[i] >= p)
  {
    if |data| > 1 {
      var m := |data| / 2;
      var rest := Without(data, m);
      SplitIsPermutation(rest, data[m]);
      AroundPivot(Below(rest, data[m]), data[m], AtLeast(rest, data[m]));
    }
  }

  /** Both elements of `[3, 2]` are at or above 1. */
  lemma SplitCounterexample()
    ensures Below([3, 2], 1) == [] && AtLeast([3, 2], 1) == [3, 2]
  {
    var s0: seq<int> := [];
    SplitSnoc(s0, 3, 1);
    SplitSnoc([3], 2, 1);
    assert [3] + [2] == [3, 2];
  }

  /** Dropping the middle of `[3, 1, 2]` leaves `[3, 2]`. */
  lemma WithoutMiddle()
    ensures Without([3, 1, 2], 1) == [3, 2]
  {
    var d := [3, 1, 2];
    assert d[..1] == [3] && d[2..] == [2];
  }

  /** One unfolding of `Partition` on an input with at least two elements. */
  lemma PartitionUnfold(d: seq<int>)
    requires |d| > 1
    ensures Partition(d) == Below(Without(d, |d| / 2), d[|d| / 2]) + [d[|d| / 2]] + AtLeast(Without(d, |d| / 2), d[|d| / 2])
  {
  }

  /** The partition of `[3, 1, 2]`: the pivot is `data[1] == 1`, nothing is below it, and
      `3, 2` follow in their original order. */
  lemma PartitionCounterexample()
    ensures var r := Partition([3, 1, 2]); |r| == 3 && r[0] == 1 && r[1] == 3 && r[2] == 2
  {
    var d := [3, 1, 2];
    PartitionUnfold(d);
    WithoutMiddle();
    SplitCounterexample();
    assert Partition(d) == [] + [1] + [3, 2];
  }

  /** The "quick sort" does not sort. */
  lemma PartitionDoesNotSort()
    ensures !SortedAsc(Partition([3, 1, 2]))
  {
    PartitionCounterexample();
    var r := Partition([3, 1, 2]);
    assert r[1] > r[2];
  }

  /** The quick sort the strategy evidently intends: the same partition around the middle
      element, with both sides sorted recursively. */
  function QuickSort(data: seq<int>): (r: seq<int>)
    ensures multiset(r) == multiset(data)
    ensures SortedAsc(r)
    decreases |data|
  {
    if |data| <= 1 then data
    else
      var m := |data| / 2;
      var p := data[m];
      var rest := Without(data, m);
      var lo := QuickSort(Below(rest, p));
      var hi := QuickSort(AtLeast(rest, p));
      SplitIsPermutation(rest, p);
      JoinSorted(lo, p, hi, Below(rest, p), AtLeast(rest, p));
      lo + [p] + hi
  }

  /** Two sorted sides, one holding only values below `p` and one only values at or
      above it, join around `p` into a sorted sequence. */
  lemma JoinSorted(lo: seq<int>, p: int, hi: seq<int>, below: seq<int>, above: seq<int>)
    requires SortedAsc(lo) && SortedAsc(hi)
    requires multiset(lo) == multiset(below) && multiset(hi) == multiset(above)
    requires forall i :: 0 <= i < |below| ==> below[i] < p
    requires forall i :: 0 <= i < |above| ==> above[i] >= p
    ensures SortedAsc(lo + [p] + hi)
  {
    forall i | 0 <= i < |lo|
      ensures lo[i] < p
    {
      assert lo[i] in multiset(below);
    }
    forall i | 0 <= i < |hi|
      ensures hi[i] >= p
    {
      assert hi[i] in multiset(above);
    }
  }

  datatype Strategy = BubbleStrategy | QuickStrategy

  /** `Sorter::sort`: with no strategy set the data is left as it is; otherwise the
      strategy's `sort` runs. */
  method Sort(strategy: Option<Strategy>, data: seq<int>) returns (r: seq<int>)
    requires strategy == Some(BubbleStrategy) ==> |data| > 0
    ensures strategy.None? ==> r == data
    ensures strategy == Some(BubbleStrategy) ==> SortedAsc(r) && multiset(r) == multiset(data)
    ensures strategy == Some(QuickStrategy) ==> r == Partition(data)
  {
    match strategy
    case None => r := data;
    case Some(BubbleStrategy) => r := BubbleSort(data);
    case Some(QuickStrategy) => r := QuickSortStep(data);
  }

  // ---------------------------------------------------------------------------
  // Decorator
  // ---------------------------------------------------------------------------

  datatype Topping = Milk | Sugar | WhippedCream

  /** A coffee: the simple one, wrapped in any number of decorators. */
  datatype Coffee = SimpleCoffee | Decorated(inner: Coffee, topping: Topping)

  /** What each decorator appends to the description of the coffee it wraps. */
  function Suffix(t: Topping): string
  {
    match t
    case Milk => " + Milk"
    case Sugar => " + Sugar"
    case WhippedCream => " + Whipped Cream"
  }

  /** `getDescription`: the simple coffee's name, extended by each decorator. */
  function Description(c: Coffee): string
  {
    match c
    case SimpleCoffee => "Simple Coffee"
    case Decorated(inner, t) => Description(inner) + Suffix(t)
  }

  /** The toppings from the innermost decorator outwards. */
  function Toppings(c: Coffee): seq<Topping>
  {
    match c
    case SimpleCoffee => []
    case Decorated(inner, t) => Toppings(inner) + [t]
  }

  /** The suffixes of a list of toppings, in list order. */
  function ToppingList(ts: seq<Topping>): string
  {
    if |ts| == 0 then [] else ToppingList(ts[..|ts| - 1]) + Suffix(ts[|ts| - 1])
  }

  /** A description is `"Simple Coffee"` followed by the toppings in the order they were
      added. */
  lemma {:induction false} DescriptionListsToppings(c: Coffee)
    ensures Description(c) == "Simple Coffee" + ToppingList(Toppings(c))
  {
    match c
    case SimpleCoffee =>
    case Decorated(inner, t) =>
      DescriptionListsToppings(inner);
      var ts := Toppings(c);
      assert ts[..|ts| - 1] == Toppings(inner);
      assert ToppingList(ts) == ToppingList(Toppings(inner)) + Suffix(t);
      var head: string := "Simple Coffee";
      assert head + ToppingList(Toppings(inner)) + Suffix(t) == head + (ToppingList(Toppings(inner)) + Suffix(t));
  }

  // ---------------------------------------------------------------------------
  // Command
  // ---------------------------------------------------------------------------

  datatype Command = LightOn | LightOff

  /** What a command does to the light: on or off. */
  function Execute(c: Command, lightOn: bool): bool
  {
    c == LightOn
  }

  /** `RemoteControl::pressButton`: the command in `slot` runs only when `slot` indexes
      a stored command; any other slot, negative or too large, does nothing. */
  function PressButton(commands: seq<Command>, slot: int, lightOn: bool): (r: bool)
    ensures !(0 <= slot < |commands|) ==> r == lightOn
    ensures 0 <= slot < |commands| ==> r == (commands[slot] == LightOn)
  {
    if 0 <= slot && slot < |commands| then Execute(commands[slot], lightOn) else lightOn
  }

  predicate ValidSlot(commands: seq<Command>, slot: int)
  {
    0 <= slot < |commands|
  }

  /** A sequence of button presses, in order. */
  function PressAll(commands: seq<Command>, slots: seq<int>, lightOn: bool): bool
    decreases |slots|
  {
    if |slots| == 0 then lightOn else PressAll(commands, slots[1..], PressButton(commands, slots[0], lightOn))
  }

  /** When no press names a valid slot, the light is as it was. */
  lemma {:induction false} PressAllNoValid(commands: seq<Command>, slots: seq<int>, lightOn: bool)
    ensures (forall k :: 0 <= k < |slots| ==> !ValidSlot(commands, slots[k])) ==>
              PressAll(commands, slots, lightOn) == lightOn
    decreases |slots|
  {
    if |slots| > 0 {
      PressAllNoValid(commands, slots[1..], lightOn);
      assert forall j :: 0 <= j < |slots[1..]| ==> slots[1..][j] == slots[j + 1];
    }
  }

  /** After a sequence of presses the light is as the last press of a valid slot, the
      `k`-th, left it. */
  lemma {:induction false} PressAllLastValid(commands: seq<Command>, slots: seq<int>, lightOn: bool, k: int)
    ensures 0 <= k < |slots| && ValidSlot(commands, slots[k])
            && (forall j :: k < j < |slots| ==> !ValidSlot(commands, slots[j])) ==>
              PressAll(commands, slots, lightOn) == (commands[slots[k]] == LightOn)
    decreases |slots|
  {
    if 0 <= k < |slots| && ValidSlot(commands, slots[k])
       && (forall j :: k < j < |slots| ==> !ValidSlot(commands, slots[j])) {
      var rest := slots[1..];
      var next := PressButton(commands, slots[0], lightOn);
      assert forall j :: 0 <= j < |rest| ==> rest[j] == slots[j + 1];
      if k == 0 {
        PressAllNoValid(commands, rest, next);
      } else {
        PressAllLastValid(commands, rest, next, k - 1);
      }
    }
  }

  /** Pressing the same button twice leaves the light as pressing it once. */
  lemma PressTwice(commands: seq<Command>, slot: int, lightOn: bool)
    ensures PressButton(commands, slot, PressButton(commands, slot, lightOn))
         == PressButton(commands, slot, lightOn)
  {
  }

  /** `demonstrateCommand`: button 0 turns the light on, button 1 off again. */
  lemma CommandDemo()
    ensures PressButton([LightOn, LightOff], 0, false)
    ensures !PressButton([LightOn, LightOff], 1, PressButton([LightOn, LightOff], 0, false))
  {
  }
}
