# C++ teaching corpus: the algorithmic core in Dafny

The repository is a collection of small C++ demonstration programs, one per language
feature. This project models the parts of those programs that carry real logic, and
proves what their code promises:

- **Graphs** (`graphs.dfy`): the lazy-deletion Dijkstra, BFS and recursive DFS of `dsa.h`.
  - The BFS and DFS visit orders, which the source prints, are returned as sequences.
  - Dijkstra is proved to return a shortest-path certificate.
  - The unit test's distances `[0, 1, 3, 4]` follow from that certificate.
- **Allocators** (`memory_pools.dfy`):
  - the fixed-block pool with its LIFO free list;
  - the typed object pool built on it;
  - the arena allocator, whose `size_t` align-up arithmetic
    `(off + a - 1) & ~(a - 1)` is modelled bit by bit.
- **Serialisers** (`serialization.dfy`):
  - the JSON value tree, its `std::map`-ordered objects and its pretty-printer;
  - the CSV table writer, with a reader that round-trips it;
  - the length-prefixed binary encoding of strings, `int`s and vectors.
- **Compile-time functions** (`constexpr.dfy`): factorial, Fibonacci, trial-division
  primality, `array_sum` and `all_of`, each proved against an independent definition.
- **Loop rewrites** (`loop_rewrites.dfy`):
  - the branchy and "branchless" sums;
  - the two in-place neighbour updates;
  - the strided and sequential sums.
- **Design patterns** (`design_patterns.dfy`):
  - shape factory, observer list, bubble sort, the partition step called "quick sort",
    the strategy holder, coffee decorators and the remote control.
- **Concept-constrained helpers** (`concepts.dfy`):
  - the bounded `Buffer`;
  - `add_elements`, `get_middle_element`, `count_if`, `find_max`, `calculate_average`;
  - `Calculator<int>`.
- **Plugin system** (`plugins.dfy`):
  - the text processor's `toUpper`, `reverse` and `countWords`;
  - the plugin registry;
  - the plugin manager's directory list, library search order and loaded-plugin
    bookkeeping.
- **Generators** (`generators.dfy`): the `Generator<T>` resumption protocol, and the
  values each generator coroutine yields, including the three-stage pipeline.
- **Exceptions** (`exceptions.dfy`): the exception hierarchy, first-match catch clauses,
  `processData`'s classification, the rethrow in `riskyOperation` and the rollback of
  `safeOperation`.
- **Bank account** (`bank_account.dfy`): the guarded deposit and withdraw, and the static
  count of live accounts.
- **String replace** (`replace_all.dfy`): the find-and-replace-all loop of the strings demo.

`wrappers.dfy` (`Option`, `Result`), `seqs.dfy` (sums, joins, distinctness) and
`arith.dfy` (powers of two, a natural-number bitwise and, rounding lemmas) are shared
helpers.

Every integer is unbounded. Every `double` the core relies on for logic (bank balances,
`divide`) is an exact `real`.

## Model

| member | source | states |
|---|---|---|
| Graphs.Dijkstra | examples/advanced/dsa/dsa.h:11-31 | One distance per node; 0 at the source; every distance at most INF = max/4. A node unreachable from the source keeps INF. Every finite distance is the weight of a walk from the source. Every edge out of a reached node is relaxed: no edge can improve its target's distance. |
| Graphs.RelaxEdges | examples/advanced/dsa/dsa.h:22-28 | The inner loop only ever lowers `dist[v]`, and only to `d + w` for an edge `u -> v` of weight `w`. Each lowered node gets a heap entry with its new distance. Afterwards no edge of `u` can improve its target. |
| Graphs.MinIndex | examples/advanced/dsa/dsa.h:15-20 | `pq.top()` of the min-heap is the lexicographically least `(distance, node)` pair. |
| Graphs.CertifiedDistancesAreShortest | examples/advanced/dsa/dsa.h:19-30 | With non-negative weights, a distance `dijkstra` certifies is at most the weight of every walk of finite weight to that node. |
| Graphs.TestGraphDistances | examples/advanced/dsa/dsa_tests.cpp:4-12 | On the unit test's four-node undirected graph, from node 0, any certified result is exactly `[0, 1, 3, 4]`. |
| Graphs.Bfs | examples/advanced/dsa/dsa.h:33-43 | The visit order starts at `start` and lists no node twice. A node is in it exactly when it is reachable from `start`. |
| Graphs.Dfs | examples/advanced/dsa/dsa.h:45-55 | The preorder starts at `start`, lists no node twice, and holds exactly the nodes reachable from `start`. |
| Graphs.DfsVisit | examples/advanced/dsa/dsa.h:45-48 | One call of `dfs_rec` on an unseen node: it appends only unseen nodes reachable from it, starting with itself, and leaves every edge out of a visited node pointing at a seen node. |
| Graphs.DfsFindsAllReachable | examples/advanced/dsa/dsa.h:47 | A visit order closed under edges contains every node reachable from its start. |
| MemoryPools.NewMemoryPool | examples/memory_pools/memory_pools_demo.cpp:22-34 | After construction all `blockCount` blocks are free, with block `blockCount - 1` at the head, and every free block lies inside the pool. |
| MemoryPools.InitialFreeList | examples/memory_pools/memory_pools_demo.cpp:29-33 | The constructor's loop pushes blocks `0 .. n-1`, so position `i` of the free list holds block `n - 1 - i`. |
| MemoryPools.NewPoolBlocksDistinct | examples/memory_pools/memory_pools_demo.cpp:29-33 | The initial free list names every block exactly once. |
| MemoryPools.Allocate | examples/memory_pools/memory_pools_demo.cpp:40-48 | `bad_alloc` exactly when the free list is empty. Otherwise the head block is handed out and removed from the list. |
| MemoryPools.Deallocate | examples/memory_pools/memory_pools_demo.cpp:50-63 | Null, or a pointer outside `[pool, pool + blockSize * blockCount)`, changes nothing. Any other block is pushed on the head of the free list. |
| MemoryPools.DeallocateThenAllocate | examples/memory_pools/memory_pools_demo.cpp:59-62 | LIFO reuse: a handed-out block (aligned, inside the pool, not on the free list) that is freed is the next block handed out, and the pool is as it was before the free. |
| MemoryPools.AllocateThenDeallocate | examples/memory_pools/memory_pools_demo.cpp:40-63 | Freeing the block just handed out restores the pool. |
| MemoryPools.NewLinkedPool | examples/memory_pools/memory_pools_demo.cpp:29-33 | The constructor's loop writes each block's next pointer so that the chain from `freeList` visits exactly the blocks of the initial free list, in order. |
| MemoryPools.ThreadsSkip | examples/memory_pools/memory_pools_demo.cpp:59-62 | Writing the link of a block that is not on the free list leaves the chain of the free list intact. |
| MemoryPools.LinkedAllocateAgrees | examples/memory_pools/memory_pools_demo.cpp:40-48 | Following the stored links hands out the same block as the list view, fails in the same case, and leaves the links threading the remaining list. |
| MemoryPools.LinkedDeallocateAgrees | examples/memory_pools/memory_pools_demo.cpp:50-63 | Pushing a pointer that is not already free through its link bytes keeps the links in step with the list view. |
| MemoryPools.DoubleFreeLoops | examples/memory_pools/memory_pools_demo.cpp:59-62 | Freeing the block already at the head makes it its own successor, so it is handed out and stays at the head. |
| MemoryPools.DoubleFreeDiverges | examples/memory_pools/memory_pools_demo.cpp:59-62 | Freeing block 64 of a fresh two-block pool twice: the list view holds `[64, 64, 0]`, while the links make block 64 point to itself. |
| MemoryPools.AllocateMany | examples/memory_pools/memory_pools_demo.cpp:180-189 | The demo's allocation loop stops at the first `bad_alloc`. It receives the first `min(n, free)` blocks of the free list in order. |
| MemoryPools.MemoryPoolDemo | examples/memory_pools/memory_pools_demo.cpp:170-205 | From 10 blocks of 64 bytes: 5 allocations, then freeing the 1st, 3rd and 5th. The reallocation returns the block freed last. |
| MemoryPools.ObjectAllocate | examples/memory_pools/memory_pools_demo.cpp:80-84 | Fails (`bad_alloc`) exactly when the underlying pool is exhausted; a successful allocation leaves the capacity unchanged. |
| MemoryPools.ObjectDeallocate | examples/memory_pools/memory_pools_demo.cpp:86-90 | Null is ignored, and the capacity does not change. |
| MemoryPools.CapacityIsCount | examples/memory_pools/memory_pools_demo.cpp:77-92 | `capacity()` is the count the pool was built with, after any sequence of allocations and deallocations. |
| MemoryPools.AlignUpIsNextMultiple | examples/memory_pools/memory_pools_demo.cpp:123 | For a power-of-two alignment and no `size_t` wrap-around, the aligned offset is the least multiple of the alignment that is at least the current offset. |
| MemoryPools.AlignUpClearsLowBits | examples/memory_pools/memory_pools_demo.cpp:123 | The mask `~(2^k - 1)` on 64 bits clears exactly the low `k` bits of `off + 2^k - 1`. |
| MemoryPools.AlignUpZero | examples/memory_pools/memory_pools_demo.cpp:123 | Offset 0 is aligned for every power-of-two alignment. |
| MemoryPools.NewArena | examples/memory_pools/memory_pools_demo.cpp:103-113 | A new arena holds one block, at offset 0, so `totalAllocated()` is one block. |
| MemoryPools.ArenaAllocate | examples/memory_pools/memory_pools_demo.cpp:121-133 | When the aligned request does not fit, a block is appended and the request placed at offset 0 of it. Otherwise the offset becomes `alignedOffset + size`, which is within the block. |
| MemoryPools.TotalAllocatedGrowth | examples/memory_pools/memory_pools_demo.cpp:125-128 | `totalAllocated()` grows by exactly one block when a new block is needed, and otherwise stays. |
| MemoryPools.Reset | examples/memory_pools/memory_pools_demo.cpp:135-145 | `reset()` sets the offset to 0 and the current block to the first, and keeps every block, so `totalAllocated()` is unchanged. |
| MemoryPools.ResetThenAllocate | examples/memory_pools/memory_pools_demo.cpp:135-141 | After `reset()`, a request that fits a block lands at offset 0 of the first block. |
| MemoryPools.ArenaAllocationOverruns | examples/memory_pools/memory_pools_demo.cpp:121-133 | A request larger than a block is placed at offset 0 of a fresh block, which it overruns. |
| MemoryPools.ArenaOverrunExample | examples/memory_pools/memory_pools_demo.cpp:121-133 | 2000 bytes asked of a fresh arena of 1 KiB blocks land at the start of block 1, which is 1024 bytes long. |
| MemoryPools.ArenaAllocateChecked | examples/memory_pools/memory_pools_demo.cpp:121-133 | The corrected allocation fails exactly for a request larger than a block, and otherwise behaves as the source. |
| MemoryPools.CheckedAllocationFits | examples/memory_pools/memory_pools_demo.cpp:121-133 | Every corrected allocation lies inside its block, at a multiple of the alignment, and keeps the arena within its block. |
| Serialization.Add | examples/serialization/serialization_demo.cpp:103-105 | `value[key] = val` on a `std::map`: the key maps to the new value, every other key keeps its value, an existing key is replaced rather than duplicated, and the members stay in strictly ascending key order. |
| Serialization.AddAllSortedAndLast | examples/serialization/serialization_demo.cpp:103-119 | Whatever order keys are added in, the object iterates in ascending key order, and each key holds the last value added for it. |
| Serialization.LessTotal | examples/serialization/serialization_demo.cpp:113-119 | `std::string` ordering is total, so every object has one iteration order. |
| Serialization.ArrayToString | examples/serialization/serialization_demo.cpp:79-93 | An empty array renders as `[]`. Otherwise `[` and a line break; each element on its own line, indented `indent + 2` spaces, a comma after every element but the last; then `indent` spaces and `]`. |
| Serialization.ObjectToString | examples/serialization/serialization_demo.cpp:107-123 | An empty object renders as `{}`. Otherwise each member is one line of indentation, quoted key, `": "` and the value rendered at `indent + 2`, comma-separated, in key order. |
| Serialization.PersonKeyOrder | examples/serialization/serialization_demo.cpp:139-153 | `Person::toJson` adds name, age, height, hobbies, yet the object lists them as age, height, hobbies, name. |
| Serialization.SerializeRow | examples/serialization/serialization_demo.cpp:236-244 | A field containing a comma is written in double quotes, any other as it is, and fields are separated by commas with none trailing. |
| Serialization.SerializeTable | examples/serialization/serialization_demo.cpp:233-248 | Every row, including an empty one, is written followed by a line break. |
| Serialization.CsvRoundTrip | examples/serialization/serialization_demo.cpp:233-248 | A table with non-empty rows whose fields hold no quote and no line break is read back exactly from its CSV text. |
| Serialization.EmptyRowAmbiguous | examples/serialization/serialization_demo.cpp:235-246 | An empty row and a row of one empty field both render as a bare line break. |
| Serialization.DecodeEncode | examples/serialization/serialization_demo.cpp:197-201 | Decoding the little-endian bytes of a value that fits gives the value back. |
| Serialization.EncodeDecode | examples/serialization/serialization_demo.cpp:203-208 | Every byte pattern is the encoding of the value it decodes to. |
| Serialization.ReadBytes | examples/serialization/serialization_demo.cpp:205-207 | A read of `n` bytes succeeds exactly when `n` bytes remain, and splits the input there. |
| Serialization.StringRoundTrip | examples/serialization/serialization_demo.cpp:197-208 | `deserializeString` reads back what `serializeString` wrote, and leaves the rest of the stream unread. |
| Serialization.StringReadIsEncoding | examples/serialization/serialization_demo.cpp:203-208 | Whatever reads successfully as a string is that string's length prefix and bytes, followed by the rest of the stream. |
| Serialization.IntRoundTrip | examples/serialization/serialization_demo.cpp:187-195 | An `int` written as its 4 raw bytes reads back unchanged. |
| Serialization.IntsRoundTrip | examples/serialization/serialization_demo.cpp:289-291 | The scores written one `int` at a time are read back one at a time in order. |
| Serialization.VectorRoundTrip | examples/serialization/serialization_demo.cpp:286-312 | A vector written as its `size_t` count and then its elements reads back unchanged. |
| Serialization.RecordRoundTrip | examples/serialization/serialization_demo.cpp:274-312 | The name, age, salary bytes and scores the demo writes are read back as written. |
| Constexpr.Factorial | examples/template_metaprogramming/template_metaprogramming_demo.cpp:40-42 | `factorial(n)` is at least 1. |
| Constexpr.FactorialIsProduct | examples/template_metaprogramming/template_metaprogramming_demo.cpp:40-42 | The recursive factorial is the product `1 * 2 * ... * n`. |
| Constexpr.FactorialOfFive | examples/template_metaprogramming/template_metaprogramming_demo.cpp:219 | The demo's `factorial(5)` is 120. |
| Constexpr.FibPairIsFibonacci | examples/template_metaprogramming/template_metaprogramming_demo.cpp:45-47 | The doubly recursive `fibonacci` agrees with the iterative pair recurrence. |
| Constexpr.FibonacciOfTen | examples/template_metaprogramming/template_metaprogramming_demo.cpp:220 | The demo's `fibonacci(10)` is 55. |
| Constexpr.FibonacciMonotone | examples/template_metaprogramming/template_metaprogramming_demo.cpp:45-47 | No Fibonacci number is smaller than the one before it. |
| Constexpr.IsPrimeFromSpec | examples/template_metaprogramming/template_metaprogramming_demo.cpp:50-55 | Trial division from `divisor` answers: `n >= 2` and no `d >= divisor` with `d * d <= n` divides `n`. |
| Constexpr.IsPrimeTrialDivision | examples/template_metaprogramming/template_metaprogramming_demo.cpp:50-55 | `is_prime(n)` is false below 2, and from 2 on true exactly when no `d >= 2` with `d * d <= n` divides `n`. |
| Constexpr.IsPrimeIsPrime | examples/template_metaprogramming/template_metaprogramming_demo.cpp:50-55 | Testing divisors up to the square root decides primality exactly: `is_prime(n)` holds iff `n` has no proper divisor. |
| Constexpr.PrimeExamples | examples/template_metaprogramming/template_metaprogramming_demo.cpp:221-222 | 17 is prime and 15 is not. |
| Constexpr.ArraySumIsSum | examples/template_metaprogramming/template_metaprogramming_demo.cpp:129-132 | `array_sum(arr, index)` is the sum of the elements from `index` on, and `T{}` past the end. |
| Constexpr.ArraySumExample | examples/template_metaprogramming/template_metaprogramming_demo.cpp:225-226 | The demo array `{1, 2, 3, 4, 5}` sums to 15. |
| Constexpr.AllOf | examples/template_metaprogramming/template_metaprogramming_demo.cpp:135-138 | `all_of` holds exactly when the predicate holds of every element from `index` on; it is vacuously true past the end. |
| Constexpr.AllOfExamples | examples/template_metaprogramming/template_metaprogramming_demo.cpp:225-228 | `{1, 2, 3, 4, 5}` is not all even but is all positive. |
| LoopRewrites.SumWithBranches | examples/performance_optimization/performance_optimization_demo.cpp:92-102 | Adding positives and subtracting the rest gives the sum of absolute values. |
| LoopRewrites.SumBranchless | examples/performance_optimization/performance_optimization_demo.cpp:105-113 | `sum += sign * abs(x)` adds `x` itself, so the result is the plain sum. |
| LoopRewrites.SumAbsEqualsSumIff | examples/performance_optimization/performance_optimization_demo.cpp:92-113 | The two sums agree exactly when no element is negative; otherwise the branchy one is larger. |
| LoopRewrites.BranchlessDiffersOnDemoData | examples/performance_optimization/performance_optimization_demo.cpp:269-270 | On data shaped like the demo's (a negative value among positives) the branchy and branchless results differ. |
| LoopRewrites.SumBranchlessCorrected | examples/performance_optimization/performance_optimization_demo.cpp:105-113 | A branch-free sum with the sign applied to `x` computes the sum of absolute values, as `sumWithBranches` does. |
| LoopRewrites.Processed | examples/performance_optimization/performance_optimization_demo.cpp:118-122 | The reference update: element `i < n - 1` becomes `2 * old[i] + old[i + 1]`, and the last becomes twice itself plus the already updated first. |
| LoopRewrites.ProcessDataInefficient | examples/performance_optimization/performance_optimization_demo.cpp:118-122 | The in-place loop with the wrap-around index `(i + 1) % n` computes the reference update. |
| LoopRewrites.ProcessDataOptimized | examples/performance_optimization/performance_optimization_demo.cpp:125-137 | An empty vector is left alone. Every other input gets exactly the reference update, so the two versions agree. |
| LoopRewrites.SumStrided | examples/performance_optimization/performance_optimization_demo.cpp:142-148 | With a positive stride, the sum of the elements at indices 0, s, 2s, ... |
| LoopRewrites.SumSequential | examples/performance_optimization/performance_optimization_demo.cpp:151-157 | The sum of all elements. |
| LoopRewrites.StrideOneIsSequential | examples/performance_optimization/performance_optimization_demo.cpp:142-157 | With stride 1 the strided and sequential sums agree. |
| DesignPatterns.CreateShape | examples/design_patterns/design_patterns_demo.cpp:72-81 | Null for any name but "circle", "rectangle" and "triangle"; otherwise the shape of that name. |
| DesignPatterns.CreateFromName | examples/design_patterns/design_patterns_demo.cpp:72-81 | Every shape is created from its own name. |
| DesignPatterns.AddObserver | examples/design_patterns/design_patterns_demo.cpp:96-98 | The observer is appended, duplicates allowed. |
| DesignPatterns.RemoveObserver | examples/design_patterns/design_patterns_demo.cpp:100-102 | Every occurrence of the observer is gone, and every other observer keeps its number of occurrences. |
| DesignPatterns.RemoveDistributes | examples/design_patterns/design_patterns_demo.cpp:100-102 | Removal acts on each part of the list separately, so the remaining observers keep their order. |
| DesignPatterns.RemoveAbsent | examples/design_patterns/design_patterns_demo.cpp:100-102 | Removing an observer that is not registered changes nothing. |
| DesignPatterns.RemoveUndoesAdd | examples/design_patterns/design_patterns_demo.cpp:96-102 | Adding a new observer and removing it again is no change. |
| DesignPatterns.Notify | examples/design_patterns/design_patterns_demo.cpp:104-108 | One delivery of the message to each observer, in list order. |
| DesignPatterns.NotifyAppend | examples/design_patterns/design_patterns_demo.cpp:96-108 | An observer added with `addObserver` receives the message after every observer already attached. |
| DesignPatterns.NotifyCounts | examples/design_patterns/design_patterns_demo.cpp:104-108 | Each observer receives the message once for each time it is attached. |
| DesignPatterns.NotifyAfterRemove | examples/design_patterns/design_patterns_demo.cpp:100-108 | After `removeObserver(o)`, `o` receives nothing, and every other observer receives the message as often as before. |
| DesignPatterns.ObserverDemo | examples/design_patterns/design_patterns_demo.cpp:363-376 | After the second subscriber is removed, the final news reaches the first and the third only. |
| DesignPatterns.BubbleSort | examples/design_patterns/design_patterns_demo.cpp:140-150 | A non-empty vector comes out sorted ascending and is a permutation of the input. |
| DesignPatterns.BubblePass | examples/design_patterns/design_patterns_demo.cpp:144-148 | One inner pass over the first `m` elements moves their maximum to position `m - 1`, permutes, and leaves the sorted suffix alone. |
| DesignPatterns.SplitIsPermutation | examples/design_patterns/design_patterns_demo.cpp:163-168 | Splitting on the pivot loses and invents no element. |
| DesignPatterns.QuickSortStep | examples/design_patterns/design_patterns_demo.cpp:155-173 | The source's loop builds the partition: the elements below the pivot in order, the pivot, then the rest in order. |
| DesignPatterns.PartitionSplitsAroundPivot | examples/design_patterns/design_patterns_demo.cpp:158-172 | Vectors of size at most 1 are unchanged. A longer one becomes a permutation with everything before the pivot below it and everything after it at or above it. |
| DesignPatterns.PartitionCounterexample | examples/design_patterns/design_patterns_demo.cpp:155-173 | `[3, 1, 2]` becomes `[1, 3, 2]`. |
| DesignPatterns.PartitionDoesNotSort | examples/design_patterns/design_patterns_demo.cpp:155-173 | The "quick sort" result for `[3, 1, 2]` is not sorted. |
| DesignPatterns.QuickSort | examples/design_patterns/design_patterns_demo.cpp:155-173 | The same partition applied recursively to both sides yields a sorted permutation. |
| DesignPatterns.Sort | examples/design_patterns/design_patterns_demo.cpp:185-189 | With no strategy the data is unchanged; bubble sort sorts; the quick-sort strategy yields the one-step partition. |
| DesignPatterns.DescriptionListsToppings | examples/design_patterns/design_patterns_demo.cpp:200-251 | A description is "Simple Coffee" followed by " + Milk", " + Sugar" or " + Whipped Cream" for each decorator, innermost first. |
| DesignPatterns.PressButton | examples/design_patterns/design_patterns_demo.cpp:304-308 | A command runs only when `0 <= slot < commands.size()`; any other slot does nothing. |
| DesignPatterns.PressTwice | examples/design_patterns/design_patterns_demo.cpp:304-308 | Pressing the same button twice leaves the light as pressing it once. |
| DesignPatterns.PressAllNoValid | examples/design_patterns/design_patterns_demo.cpp:304-308 | A run of presses that names no valid slot leaves the light unchanged. |
| DesignPatterns.PressAllLastValid | examples/design_patterns/design_patterns_demo.cpp:304-308 | After a run of presses, the light is on exactly when the last valid press was a light-on command. |
| DesignPatterns.CommandDemo | examples/design_patterns/design_patterns_demo.cpp:432-439 | Button 0 turns the light on, then button 1 turns it off. |
| Concepts.BufferAdd | examples/concepts/concepts_demo.cpp:240-246 | Refused, with no change, exactly when `size >= max_size`. Otherwise the item is appended, so `size <= max_size` is kept. |
| Concepts.BufferClear | examples/concepts/concepts_demo.cpp:248 | The buffer is empty and keeps its capacity. |
| Concepts.FillKeepsPrefix | examples/concepts/concepts_demo.cpp:240-246 | Offered items in turn, a buffer keeps exactly the first items that fit its free capacity. |
| Concepts.BufferDemo | examples/concepts/concepts_demo.cpp:351-358 | A buffer of capacity 5 offered 1 to 6 holds 1 to 5. |
| Concepts.CalculatorDemo | examples/concepts/concepts_demo.cpp:220-227 | `Calculator<int>(10)`, add 5, multiply by 2 gives 30; `reset` gives 0; a square is never negative. |
| Concepts.CalcRunAppend | examples/concepts/concepts_demo.cpp:220-227 | Running two lists of calls one after the other is running their concatenation. |
| Concepts.AddsSum | examples/concepts/concepts_demo.cpp:222 | A run of `add` calls adds the sum of the arguments to the value. |
| Concepts.ResetForgets | examples/concepts/concepts_demo.cpp:227 | After `reset`, the value depends only on the calls that follow it, as if started from `T{}`. |
| Concepts.SquareLast | examples/concepts/concepts_demo.cpp:224 | A run whose last call is `square` ends with a non-negative value. |
| Concepts.AddElements | examples/concepts/concepts_demo.cpp:136-141 | Exactly `count` copies of `value` are appended, and the original elements are kept. |
| Concepts.GetMiddleElement | examples/concepts/concepts_demo.cpp:144-150 | An error exactly for an empty container; otherwise the element at the middle position `size / 2`, characterised as the index with as many elements after it as before, or one fewer. |
| Concepts.CountIf | examples/concepts/concepts_demo.cpp:153-162 | The number of elements satisfying the predicate. |
| Concepts.CountComplement | examples/concepts/concepts_demo.cpp:153-162 | Every element is counted by exactly one of a predicate and its negation. |
| Concepts.EvenCountDemo | examples/concepts/concepts_demo.cpp:302-306 | 1 to 10 has 5 even numbers. |
| Concepts.FindMax | examples/concepts/concepts_demo.cpp:165-182 | An error exactly for an empty container; otherwise one of its elements. |
| Concepts.FindMaxIsMaximum | examples/concepts/concepts_demo.cpp:165-182 | With the demo's comparator `a > b`, no element exceeds the result. |
| Concepts.AverageWithinBounds | examples/concepts/concepts_demo.cpp:185-196 | The integer average, with C++ truncating division, lies between the least and greatest bounds of the values. |
| Concepts.TruncDiv | examples/concepts/concepts_demo.cpp:195 | Integer division by a positive divisor rounds toward zero. |
| Concepts.AverageDemo | examples/concepts/concepts_demo.cpp:318-321 | The integer average of 1 to 5 is 3. |
| Plugins.UpperChar | examples/plugin_system/plugin_system_demo.cpp:264 | `toupper` maps a lowercase letter to its capital and leaves every other character alone. |
| Plugins.ToUpper | examples/plugin_system/plugin_system_demo.cpp:262-266 | The same length, each character upper-cased independently. |
| Plugins.UpperIdempotent | examples/plugin_system/plugin_system_demo.cpp:262-266 | Upper-casing twice is upper-casing once. |
| Plugins.ReverseInvolution | examples/plugin_system/plugin_system_demo.cpp:268-270 | Reversing twice gives the string back. |
| Plugins.Reverse | examples/plugin_system/plugin_system_demo.cpp:268-270 | Same length, and character `i` of the result is character `len - 1 - i` of the input. |
| Plugins.CountWords | examples/plugin_system/plugin_system_demo.cpp:272-284 | The `inWord` loop counts the maximal runs of non-whitespace characters. |
| Plugins.OneWord | examples/plugin_system/plugin_system_demo.cpp:272-284 | A non-empty run of non-space characters is one word. |
| Plugins.WordCountSpaceJoin | examples/plugin_system/plugin_system_demo.cpp:272-284 | Word counts add up across a separating space. |
| Plugins.HelloWorldWords | examples/plugin_system/plugin_system_demo.cpp:254-258 | "Hello, World!" has two words. |
| Plugins.RegisterPlugin | examples/plugin_system/plugin_system_demo.cpp:362-364 | The registered names grow by exactly the new name. |
| Plugins.RegisterThenCreate | examples/plugin_system/plugin_system_demo.cpp:362-372 | After registering, the name yields the new creator, replacing any earlier one, and every other name is unaffected. |
| Plugins.CreatePlugin | examples/plugin_system/plugin_system_demo.cpp:366-372 | Null exactly for an unregistered name. |
| Plugins.GetAvailablePlugins | examples/plugin_system/plugin_system_demo.cpp:374-380 | Exactly the registered names, each once. |
| Plugins.DefaultRegistryServes | examples/plugin_system/plugin_system_demo.cpp:355-360 | The constructor's registry serves "Calculator", "TextProcessor" and "DataAnalyzer", each with its own plugin, and nothing else. |
| Plugins.NewManager | examples/plugin_system/plugin_system_demo.cpp:39-43 | Nothing is loaded, and the search directories are `./plugins`, then `../plugins`. |
| Plugins.AddPluginDirectory | examples/plugin_system/plugin_system_demo.cpp:50-52 | The directory is searched after every directory already listed. |
| Plugins.FindPluginLibrary | examples/plugin_system/plugin_system_demo.cpp:189-208 | Directories in list order, and in each `lib<n>.so`, `<n>.so`, `lib<n>.dylib`, `<n>.dylib`. The result is a candidate that exists, equals the first existing candidate of the independent reference search, and is "" exactly when none exists. |
| Plugins.LoadPlugin | examples/plugin_system/plugin_system_demo.cpp:60-115 | An already loaded name succeeds with no change. Otherwise the library path is the one `findPluginLibrary` returns over the manager's directories. If that path is empty, or opening it fails, the load fails with no change. Success stores exactly the opened plugin under the name. The directories are kept, and every other name keeps its presence and its plugin. |
| Plugins.UnloadPlugin | examples/plugin_system/plugin_system_demo.cpp:118-140 | False with no change for a name that is not loaded; otherwise that name, and only it, is no longer loaded. |
| Plugins.UnloadAllPlugins | examples/plugin_system/plugin_system_demo.cpp:143-153 | Nothing stays loaded, and the directories are kept. |
| Plugins.ExecutePlugin | examples/plugin_system/plugin_system_demo.cpp:156-166 | Succeeds exactly for a loaded name. |
| Plugins.GetPlugin | examples/plugin_system/plugin_system_demo.cpp:182-185 | The loaded plugin of that name, or null. |
| Plugins.LoadUnload | examples/plugin_system/plugin_system_demo.cpp:60-140 | Loading twice is loading once, and a successful load of a new name is undone by unloading it. |
| Generators.Next | examples/coroutines/coroutines_demo.cpp:46-52 | A finished coroutine is left alone and reports false. Otherwise it is resumed, and reports true exactly when it stopped at a yield. |
| Generators.NextAfterFalse | examples/coroutines/coroutines_demo.cpp:46-52 | Once `next` returns false it keeps returning false. |
| Generators.DrainYieldsAll | examples/coroutines/coroutines_demo.cpp:183-185 | The consumer loop `while (gen.next()) gen.value()` sees every yielded value once, in order. |
| Generators.FibonacciGenerator | examples/coroutines/coroutines_demo.cpp:82-90 | Yields exactly `F(0) .. F(count - 1)`, and nothing for a non-positive count. |
| Generators.EvenNumbers | examples/coroutines/coroutines_demo.cpp:93-97 | Yields 0, 2, 4, ... up to the largest even number not above `max`, and nothing when `max < 0`. |
| Generators.LazyFactorial | examples/coroutines/coroutines_demo.cpp:133-139 | Yields 1!, 2!, ..., n!. |
| Generators.GenerateNumbers | examples/coroutines/coroutines_demo.cpp:144-148 | Yields `start .. end` inclusive, and nothing when `start > end`. |
| Generators.FilterEven | examples/coroutines/coroutines_demo.cpp:151-158 | Only even values, and every even input. |
| Generators.FilterEvenGenerator | examples/coroutines/coroutines_demo.cpp:151-158 | The even inputs, in their order. |
| Generators.SquareNumbers | examples/coroutines/coroutines_demo.cpp:161-166 | The square of each input, in order. |
| Generators.EvensOfRange | examples/coroutines/coroutines_demo.cpp:144-158 | The even numbers of `1 .. n` are `2, 4, ..., 2 * (n / 2)`. |
| Generators.PipelineSquaresEvens | examples/coroutines/coroutines_demo.cpp:226-240 | generate(1, n), then filter even, then square yields the squares of the even numbers of `1 .. n`, `n / 2` of them. |
| Generators.TraditionalSquares | examples/coroutines/coroutines_demo.cpp:252-257 | The traditional loop yields exactly what the pipeline yields. |
| Generators.PipelineDemo | examples/coroutines/coroutines_demo.cpp:232-239 | The demo pipeline prints 4 16 36 64 100. |
| Generators.GeneratorsDemo | examples/coroutines/coroutines_demo.cpp:181-199 | The tenth Fibonacci number is 34, and 5! is 120. |
| Exceptions.HierarchyIsOrdered | examples/exceptions/exceptions_demo.cpp:8-18 | Every exception is a `std::exception`, and derivation is transitive. |
| Exceptions.Catch | examples/exceptions/exceptions_demo.cpp:74-92 | The first catch clause whose class the exception derives from handles it; none does exactly when it propagates. |
| Exceptions.Divide | examples/exceptions/exceptions_demo.cpp:21-26 | A zero denominator throws `DivisionByZeroException`; otherwise the quotient times the denominator is the numerator. |
| Exceptions.ProcessData | examples/exceptions/exceptions_demo.cpp:29-41 | No exception exactly for values 1 to 100. |
| Exceptions.ProcessDataHandlers | examples/exceptions/exceptions_demo.cpp:29-41 | A negative value reaches the `InvalidInputException` handler, 0 the `runtime_error` one, above 100 the `out_of_range` one; the catch-all is never reached. |
| Exceptions.At | examples/exceptions/exceptions_demo.cpp:47 | `vector::at` throws `out_of_range` exactly for an index outside the vector. |
| Exceptions.RiskyOperation | examples/exceptions/exceptions_demo.cpp:44-54 | Always fails with `out_of_range`. |
| Exceptions.RiskyOperationPropagates | examples/exceptions/exceptions_demo.cpp:94-104 | The rethrown exception reaches the caller's `out_of_range` clause, not its catch-all. |
| Exceptions.SafeOperation | examples/exceptions/exceptions_demo.cpp:147-162 | With 999 it fails and leaves the data exactly as before; any other value appends `v` and then `2v`. |
| Exceptions.SafeOperationsEffects | examples/exceptions/exceptions_demo.cpp:147-162 | Successive calls leave the pair `v, 2v` of each successful call, in order; failed calls leave no trace. |
| Exceptions.SafeOperationDemo | examples/exceptions/exceptions_demo.cpp:164-180 | `{1, 2, 3}` becomes `{1, 2, 3, 4, 8}`, and the failing call with 999 leaves it so. |
| BankAccounts.Deposit | examples/oop/oop_demo.cpp:88-95 | Adds the amount exactly when it is positive; otherwise nothing changes. |
| BankAccounts.Withdraw | examples/oop/oop_demo.cpp:97-104 | Subtracts the amount exactly when `0 < amount <= balance`; otherwise nothing changes. |
| BankAccounts.BalanceStaysNonNegative | examples/oop/oop_demo.cpp:88-104 | From a non-negative balance, no sequence of deposits and withdrawals makes it negative. |
| BankAccounts.AccountDemo | examples/oop/oop_demo.cpp:169-187 | 500, plus 200, minus 100 gives 600, and the withdrawal of 1000 is then refused. The composed account of 1000 receives 500. |
| BankAccounts.Construct | examples/oop/oop_demo.cpp:68-71 | A construction appends one live account, and `accountCount` still equals the number of live accounts. |
| BankAccounts.Destroy | examples/oop/oop_demo.cpp:73-76 | A destruction removes exactly that account, and `accountCount` still equals the number of live accounts. |
| BankAccounts.CountIsLiveAccounts | examples/oop/oop_demo.cpp:60-113 | With copies counted, as a counting copy constructor would do, `getAccountCount()` is the number of live accounts after any history of constructions, copies and destructions, so it is never negative. |
| BankAccounts.CopyImplicit | examples/oop/oop_demo.cpp:60-113 | The implicitly generated copy constructor adds a live account and leaves `accountCount` as it was. |
| BankAccounts.CopyCounted | examples/oop/oop_demo.cpp:68-71 | A copy that increments `accountCount` like the constructor adds a live account and keeps the count equal to the number of live accounts. |
| BankAccounts.CountLagsByCopies | examples/oop/oop_demo.cpp:60-113 | As written, the count never exceeds the number of live accounts. Without copies it equals it, and the history runs as in the counted model. |
| BankAccounts.CopyDrift | examples/oop/oop_demo.cpp:60-113 | Construct, then copy: two live accounts, count 1. Destroying both leaves no live account and a count of -1. |
| BankAccounts.AccountCountDemo | examples/oop/oop_demo.cpp:179-182 | Two accounts make the count 2, a third makes it 3. |
| ReplaceAll.Find | examples/strings/strings_demo.cpp:89 | `find("the", pos)` returns the first match at or after `pos`, or `npos` when there is none. |
| ReplaceAll.ReplaceAllThe | examples/strings/strings_demo.cpp:88-92 | The loop terminates and leaves no "the" in the text. The length is unchanged, and the result is the left-to-right replacement. |
| ReplaceAll.ReplacedChangesOnlyThe | examples/strings/strings_demo.cpp:88-92 | Every character is kept, or is a letter of a replaced "the" turned into its capital. |
| ReplaceAll.CapitalisedTheKept | examples/strings/strings_demo.cpp:85-89 | The search is case-sensitive: a leading capitalised "The" is kept. |

## Left out

- I/O and printing. Every `cout`, the file streams, `listLoadedPlugins` and the XML
  serializer's output are not modelled. The BFS and DFS orders and the generators'
  yields are returned rather than printed.
- The binary serializer's `ofstream`/`ifstream` are modelled as a byte sequence that is
  read from the front.
  - The model assumes a 64-bit little-endian `size_t`, a 32-bit two's-complement `int`,
    and a `double` kept as its 8 raw bytes.
  - A read past the end is an explicit error, not a failed stream state.
- Floating point. This covers:
  - `JsonNumber` formatting: a number carries its already formatted text;
  - the XML serializer's `setprecision(2)`;
  - the decorators' `getCost`;
  - the `DataAnalyzer` plugin's statistics;
  - `Calculator<double>` and the `double` average of `calculate_average`;
  - the matrix multiplies.
- BankAccounts.Deposit: amounts and balances are exact `real`s, not IEEE doubles, so
  rounding is not modelled.
- Exceptions.Divide: the same holds; the quotient is exact.
- Integer widths.
  - `int`, `unsigned long long` and `size_t` overflow is not modelled. Integers are
    unbounded everywhere except the arena's align-up, which wraps at 2^64 explicitly.
  - Graphs.Dijkstra: `d + w` is unbounded, where the source's `int` sum could overflow
    for weights near `INT_MAX`.
  - The distances are bounded by the INF the source uses, and weights are required to
    be non-negative, as the algorithm needs.
- Graphs.Bfs and Graphs.Dfs require an in-range start node and a graph whose edges name
  its nodes, as the source's indexing of `seen` demands.
- DesignPatterns.BubbleSort requires a non-empty vector. For an empty one the source's
  bound `data.size() - 1` wraps around and the loop reads out of bounds.
- LoopRewrites.SumStrided requires a positive stride. A zero stride never ends, and a
  negative one converts to a huge `size_t` step.
- MemoryPools.NewMemoryPool requires blocks of at least pointer size, since each free
  block stores the next pointer.
- MemoryPools.AlignUpIsNextMultiple requires no `size_t` wrap-around in
  `off + alignment - 1`.
- MemoryPools.CheckedAllocationFits requires blocks and alignments of at most 2^62.
- MemoryPools.ArenaAllocationOverruns requires the same 2^62 bound; the general
  wrap-around case is not claimed.
- The arena demo's ten concrete allocations are not evaluated. The natural-number
  bitwise and is too costly on concrete 64-bit masks, so the demo is represented by
  MemoryPools.ArenaOverrunExample and MemoryPools.ResetThenAllocate.
- MemoryPools.Deallocate: the free-list view pushes any in-pool pointer, so a double
  free lists a block twice, where the source's link bytes make the block its own
  successor. MemoryPools.DoubleFreeDiverges shows this. The links view
  (MemoryPools.LinkedDeallocate) follows the source. A misaligned pointer whose link
  bytes overlap a neighbouring block's link is not represented, because links are
  stored per block offset.
- MemoryPools.DeallocateThenAllocate requires a handed-out block, i.e. aligned, inside
  the pool and not on the free list. For other pointers the two views part as above.
- Pointers are block offsets. `allocate` returns the offset of a block. A pointer handed
  to `deallocate` is an offset or null. The object constructors and destructors the
  object pool runs are not modelled.
- The concrete sentence of the strings demo is not evaluated. ReplaceAll.ReplaceAllThe
  and ReplaceAll.CapitalisedTheKept state what it shows.
- `Person::fromJson` is a placeholder in the source and is not modelled.
- Plugin loading through the operating system is abstracted:
  - `fs::exists` is a parameter of `findPluginLibrary` and of `loadPlugin`;
  - `dlopen`, `dlsym`, the factory call and `initialize` together are one `Opener`
    parameter that either yields a plugin or fails;
  - `loadedLibraries` is merged into the loaded map;
  - a plugin's `shutdown` and `execute` side effects are not modelled.
- Plugins.Reverse: strings are sequences of characters, not bytes. A multi-byte UTF-8
  character is reversed as one character, not bytewise as `std::string` does. The same
  holds for the text processor's upper-casing and word count.
- Plugins.GetAvailablePlugins: `unordered_map` iteration order is unspecified, so the
  model states the set of names and their distinctness, not an order.
- Plugins.RegisterPlugin: the creator is a value. Calling it to build a plugin is
  modelled as returning that value.
- Generators.Next: a generator is its list of yields and its resume count. The coroutine
  frame, `suspend_always` and handle destruction are not modelled. The simple, async,
  threaded and awaiter coroutines are left out because they are timing and
  concurrency demonstrations.
- Generators.FilterEvenGenerator and Generators.SquareNumbers consume a finished
  sequence rather than a suspended upstream generator. The order of values is the same.
- DesignPatterns.Notify records the deliveries. The observers' `update` output is not
  modelled.
- The remote control's commands only switch a light on or off.
- The adapter and singleton demos have no logic beyond printing (the logger depends on
  a mutex), so they are not modelled.
- Concepts.FindMax: for an arbitrary comparator the contract says only that the result
  is an element. The maximum is proved for the demo's comparator, in
  Concepts.FindMaxIsMaximum.
- `Calculator<int>` is modelled at `int` only. The other concept demos
  (`print_container`, `analyze_string`, the type constraints themselves) are
  compile-time or printing matters.
- The thread pool, the concurrency demos and the STL, ranges, SIMD and timing tours
  are outside this model.

## Findings

| source | as written | input that shows it | evidently intended | confidence | as-written member | corrected member |
|---|---|---|---|---|---|---|
| examples/performance_optimization/performance_optimization_demo.cpp:105-113 | `sum += sign * abs(x)` with `sign = (x > 0) ? 1 : -1` adds `x` itself, so the "branchless" sum is the plain sum | `[1, -100]`: 101 branchy, -99 branchless; the demo's data holds `-100` at index 100 | the same result as `sumWithBranches` (the demo prints whether they match) | not executed | LoopRewrites.BranchlessDiffersOnDemoData | LoopRewrites.SumBranchlessCorrected |
| examples/design_patterns/design_patterns_demo.cpp:155-173 | `QuickSort::sort` performs a single partition around the middle element and does not recurse | `[3, 1, 2]` becomes `[1, 3, 2]` | a sorted permutation, as the strategy's name and the bubble-sort alternative promise | not executed | DesignPatterns.PartitionDoesNotSort | DesignPatterns.QuickSort |
| examples/oop/oop_demo.cpp:60-113 | `BankAccount` has no copy constructor. The implicit one copies without incrementing `accountCount`, while every copy's destructor decrements it | construct one account, copy it, destroy both: `getAccountCount()` is -1 with no live account | `accountCount` equals the number of live accounts | medium, not executed | BankAccounts.CopyDrift | BankAccounts.CountIsLiveAccounts |
| examples/memory_pools/memory_pools_demo.cpp:121-133 | a request larger than `blockSize` gets a new block and is placed at its offset 0, overrunning it | `ArenaAllocator(1024)`, `allocate(2000)` | refuse (`bad_alloc`) a request that cannot fit a block | not executed | MemoryPools.ArenaAllocationOverruns | MemoryPools.CheckedAllocationFits |
