/** Dijkstra, breadth-first and depth-first search over an adjacency list
    (`examples/advanced/dsa/dsa.h`). The printed BFS and DFS visit orders are
    returned as sequences. */
module Graphs {
  import opened Wrappers
  import opened Seqs

  /** One entry of `g[u]`: the pair `(v, w)` of target node and weight. */
  datatype Edge = Edge(target: int, weight: int)

  /** `AdjList`: `g[u]` lists the edges leaving node `u`. */
  type AdjList = seq<seq<Edge>>

  /** `std::numeric_limits<int>::max() / 4`, the distance of nodes not (yet) reached. */
  const INF: int := 536870911

  /** Every edge points at a node of the graph (the source indexes `dist`/`seen` by it). */
  predicate ValidGraph(g: AdjList)
  {
    forall u, j :: 0 <= u < |g| && 0 <= j < |g[u]| ==> 0 <= g[u][j].target < |g|
  }

  predicate NonNegativeWeights(g: AdjList)
  {
    forall u, j :: 0 <= u < |g| && 0 <= j < |g[u]| ==> g[u][j].weight >= 0
  }

  /** A walk from `src` is the sequence of edge indices it takes; `WalkEnd` is the node
      it arrives at, or `None` when some index does not name an edge of the node reached. */
  ghost function WalkEnd(g: AdjList, src: int, w: seq<int>): Option<int>
  {
    if |w| == 0 then (if 0 <= src < |g| then Some(src) else None)
    else match WalkEnd(g, src, w[..|w| - 1])
      case None => None
      case Some(u) =>
        var j := w[|w| - 1];
        if 0 <= u < |g| && 0 <= j < |g[u]| then Some(g[u][j].target) else None
  }

  /** The total weight of the edges a (valid) walk takes. */
  ghost function WalkWeight(g: AdjList, src: int, w: seq<int>): int
  {
    if |w| == 0 then 0
    else match WalkEnd(g, src, w[..|w| - 1])
      case None => 0
      case Some(u) =>
        var j := w[|w| - 1];
        if 0 <= u < |g| && 0 <= j < |g[u]| then WalkWeight(g, src, w[..|w| - 1]) + g[u][j].weight else 0
  }

  ghost predicate Reachable(g: AdjList, src: int, v: int)
  {
    exists w :: WalkEnd(g, src, w) == Some(v)
  }

  /** Extending a walk that ends at `u` by edge `j` of `u`. */
  lemma WalkExtend(g: AdjList, src: int, w: seq<int>, u: int, j: int)
    requires WalkEnd(g, src, w) == Some(u) && 0 <= u < |g| && 0 <= j < |g[u]|
    ensures WalkEnd(g, src, w + [j]) == Some(g[u][j].target)
    ensures WalkWeight(g, src, w + [j]) == WalkWeight(g, src, w) + g[u][j].weight
  {
    assert (w + [j])[..|w|] == w;
  }

  /** Prepending edge `j` of `u` to a walk from its target gives a walk from `u`. */
  lemma {:induction false} WalkPrepend(g: AdjList, u: int, j: int, w: seq<int>)
    requires 0 <= u < |g| && 0 <= j < |g[u]| && 0 <= g[u][j].target < |g|
    ensures WalkEnd(g, u, [j] + w) == WalkEnd(g, g[u][j].target, w)
    decreases |w|
  {
    if |w| == 0 {
      assert ([j] + w)[..0] == [];
    } else {
      assert ([j] + w)[..|[j] + w| - 1] == [j] + w[..|w| - 1];
      WalkPrepend(g, u, j, w[..|w| - 1]);
    }
  }

  /** A set of nodes that holds `src` and is closed under edges holds every node
      reachable from `src`. */
  lemma {:induction false} ClosedSetHoldsWalkEnds(g: AdjList, src: int, nodes: set<int>, w: seq<int>)
    requires src in nodes
    requires forall u, j :: u in nodes && 0 <= u < |g| && 0 <= j < |g[u]| ==> g[u][j].target in nodes
    requires WalkEnd(g, src, w).Some?
    ensures WalkEnd(g, src, w).value in nodes
    decreases |w|
  {
    if |w| > 0 {
      ClosedSetHoldsWalkEnds(g, src, nodes, w[..|w| - 1]);
    }
  }

  /** The nodes of the graph. */
  function NodeSet(g: AdjList): (r: set<int>)
    ensures forall v :: v in r <==> 0 <= v < |g|
  {
    Range(|g|)
  }

  /** The integers `0 .. n-1`. */
  function Range(n: nat): (r: set<int>)
    ensures forall v :: v in r <==> 0 <= v < n
  {
    if n == 0 then {} else Range(n - 1) + {n - 1}
  }

  // ---------------------------------------------------------------- Dijkstra

  /** A priority-queue entry `(distance, node)`; `std::greater` pops the lexicographically
      smallest pair first. */
  type Entry = (int, int)

  predicate EntryLe(a: Entry, b: Entry)
  {
    a.0 < b.0 || (a.0 == b.0 && a.1 <= b.1)
  }

  /** The position of `pq.top()`. */
  function MinIndex(pq: seq<Entry>): (m: nat)
    requires |pq| > 0
    ensures m < |pq|
    ensures forall i :: 0 <= i < |pq| ==> EntryLe(pq[m], pq[i])
  {
    if |pq| == 1 then 0
    else
      var m := MinIndex(pq[..|pq| - 1]);
      if EntryLe(pq[|pq| - 1], pq[m]) then |pq| - 1 else m
  }

  /** Every finite distance is the weight of some walk from `src`. */
  ghost predicate DistancesRealised(g: AdjList, src: int, dist: seq<int>)
  {
    forall v :: 0 <= v < |dist| && dist[v] < INF ==>
      exists w :: WalkEnd(g, src, w) == Some(v) && WalkWeight(g, src, w) == dist[v]
  }

  /** Entries name nodes of the graph, are never below the node's current distance,
      and are finite and non-negative. */
  predicate EntriesValid(pq: seq<Entry>, dist: seq<int>)
  {
    forall i :: 0 <= i < |pq| ==>
      0 <= pq[i].1 < |dist| && pq[i].0 >= dist[pq[i].1] && 0 <= pq[i].0 < INF
  }

  /** No node has two entries with the same key. */
  predicate KeysDistinctPerNode(pq: seq<Entry>)
  {
    forall a, b :: 0 <= a < b < |pq| && pq[a].1 == pq[b].1 ==> pq[a].0 != pq[b].0
  }

  /** Every edge leaving a reached node is relaxed: the edge condition that holds of the
      returned distances. */
  predicate EdgesRelaxed(g: AdjList, dist: seq<int>)
    requires |dist| == |g| && ValidGraph(g)
  {
    forall u, j :: 0 <= u < |g| && 0 <= j < |g[u]| && dist[u] < INF ==>
      dist[g[u][j].target] <= dist[u] + g[u][j].weight
  }

  /** The effect of relaxing the first `j` of `edges`, leaving a node popped at distance
      `d`, on the distances `dist` (now `dist'`), with the entries `pushed` onto the heap.
      For every lowered node `v`, `via[v]` is the edge that lowered it last and `at[v]`
      the position of its current entry in `pushed`. */
  ghost predicate RelaxedPrefix(edges: seq<Edge>, j: int, d: int, dist: seq<int>, dist': seq<int>,
                                pushed: seq<Entry>, via: seq<int>, at: seq<int>)
  {
    && 0 <= j <= |edges| && |dist'| == |dist| && |via| == |dist| && |at| == |dist|
    && (forall k :: 0 <= k < |edges| ==> 0 <= edges[k].target < |dist|)
    // a relaxation only ever lowers a distance ...
    && (forall v :: 0 <= v < |dist| ==> dist'[v] <= dist[v])
    // ... and only to d + w for an edge u -> v of weight w
    && (forall v :: 0 <= v < |dist| && dist'[v] < dist[v] ==>
          0 <= via[v] < j && edges[via[v]].target == v && dist'[v] == d + edges[via[v]].weight)
    // afterwards none of the edges seen can improve its target
    && (forall k :: 0 <= k < j ==> dist'[edges[k].target] <= d + edges[k].weight)
    // each improvement is pushed, with a key below the node's earlier distance
    && EntriesValid(pushed, dist') && KeysDistinctPerNode(pushed)
    && (forall i :: 0 <= i < |pushed| ==> d <= pushed[i].0 < dist[pushed[i].1])
    && (forall v :: 0 <= v < |dist| && dist'[v] < dist[v] ==>
          0 <= at[v] < |pushed| && pushed[at[v]] == (dist'[v], v))
  }

  /** All edges of `u` relaxed. */
  ghost predicate Relaxed(g: AdjList, u: int, d: int, dist: seq<int>, dist': seq<int>,
                          pushed: seq<Entry>, via: seq<int>, at: seq<int>)
  {
    0 <= u < |g| && RelaxedPrefix(g[u], |g[u]|, d, dist, dist', pushed, via, at)
  }

  /** One iteration of the inner loop when edge `j` improves its target. */
  lemma RelaxImproving(edges: seq<Edge>, j: int, d: int, dist: seq<int>, dist': seq<int>,
                       pushed: seq<Entry>, via: seq<int>, at: seq<int>,
                       dist2: seq<int>, pushed2: seq<Entry>, via2: seq<int>, at2: seq<int>)
    requires RelaxedPrefix(edges, j, d, dist, dist', pushed, via, at) && j < |edges|
    requires 0 <= d && edges[j].weight >= 0
    requires forall v :: 0 <= v < |dist| ==> dist[v] <= INF
    requires dist'[edges[j].target] > d + edges[j].weight
    requires dist2 == dist'[edges[j].target := d + edges[j].weight]
    requires pushed2 == pushed + [(d + edges[j].weight, edges[j].target)]
    requires via2 == via[edges[j].target := j] && at2 == at[edges[j].target := |pushed|]
    ensures RelaxedPrefix(edges, j + 1, d, dist, dist2, pushed2, via2, at2)
  {
    var v, w := edges[j].target, edges[j].weight;
    forall k | 0 <= k < j + 1
      ensures dist2[edges[k].target] <= d + edges[k].weight
    {
      assert dist2[edges[k].target] <= dist'[edges[k].target];
    }
    forall i | 0 <= i < |pushed2|
      ensures 0 <= pushed2[i].1 < |dist2| && pushed2[i].0 >= dist2[pushed2[i].1] && 0 <= pushed2[i].0 < INF
      ensures d <= pushed2[i].0 < dist[pushed2[i].1]
    {
      if i < |pushed| {
        assert pushed2[i] == pushed[i];
      }
    }
    forall a, b | 0 <= a < b < |pushed2| && pushed2[a].1 == pushed2[b].1
      ensures pushed2[a].0 != pushed2[b].0
    {
      assert pushed2[a] == pushed[a];
      if b < |pushed| {
        assert pushed2[b] == pushed[b];
      }
    }
    forall x | 0 <= x < |dist| && dist2[x] < dist[x] && x != v
      ensures pushed2[at[x]] == (dist2[x], x)
    {
      assert pushed2[at[x]] == pushed[at[x]];
    }
  }

  /** One iteration of the inner loop when edge `j` does not improve its target. */
  lemma RelaxNotImproving(edges: seq<Edge>, j: int, d: int, dist: seq<int>, dist': seq<int>,
                          pushed: seq<Entry>, via: seq<int>, at: seq<int>)
    requires RelaxedPrefix(edges, j, d, dist, dist', pushed, via, at) && j < |edges|
    requires dist'[edges[j].target] <= d + edges[j].weight
    ensures RelaxedPrefix(edges, j + 1, d, dist, dist', pushed, via, at)
  {
  }

  /** The inner loop of `dijkstra` for a popped entry `(d, u)` with `d == dist[u]`:
      relaxes every edge of `u`, given as `edges`, and returns the entries it pushes. */
  method RelaxEdges(edges: seq<Edge>, d: int, dist: seq<int>)
    returns (dist': seq<int>, pushed: seq<Entry>, ghost via: seq<int>, ghost at: seq<int>)
    requires forall k :: 0 <= k < |edges| ==> 0 <= edges[k].target < |dist| && edges[k].weight >= 0
    requires forall v :: 0 <= v < |dist| ==> dist[v] <= INF
    requires 0 <= d < INF
    ensures RelaxedPrefix(edges, |edges|, d, dist, dist', pushed, via, at)
    ensures |dist'| == |dist| && forall v :: 0 <= v < |dist| ==> dist'[v] <= dist[v]
    ensures forall k :: 0 <= k < |edges| ==> dist'[edges[k].target] <= d + edges[k].weight
    ensures forall i :: 0 <= i < |pushed| ==> 0 <= pushed[i].1 < |dist| && d <= pushed[i].0 < dist[pushed[i].1]
  {
    dist', pushed := dist, [];
    via, at := dist, dist;
    var j := 0;
    while j < |edges|
      invariant RelaxedPrefix(edges, j, d, dist, dist', pushed, via, at)
    {
      dist', pushed, via, at := RelaxEdge(edges, j, d, dist, dist', pushed, via, at);
      j := j + 1;
    }
  }

  /** One iteration of the inner loop of `dijkstra`: relaxes edge `j` of `edges`. */
  method RelaxEdge(edges: seq<Edge>, j: int, d: int, dist: seq<int>, dist': seq<int>,
                   pushed: seq<Entry>, ghost via: seq<int>, ghost at: seq<int>)
    returns (dist2: seq<int>, pushed2: seq<Entry>, ghost via2: seq<int>, ghost at2: seq<int>)
    requires RelaxedPrefix(edges, j, d, dist, dist', pushed, via, at) && j < |edges|
    requires 0 <= d && edges[j].weight >= 0
    requires forall v :: 0 <= v < |dist| ==> dist[v] <= INF
    ensures RelaxedPrefix(edges, j + 1, d, dist, dist2, pushed2, via2, at2)
  {
    var v, w := edges[j].target, edges[j].weight;
    if dist'[v] > d + w {
      dist2, via2, at2 := dist'[v := d + w], via[v := j], at[v := |pushed|];
      pushed2 := pushed + [(d + w, v)];
      RelaxImproving(edges, j, d, dist, dist', pushed, via, at, dist2, pushed2, via2, at2);
    } else {
      dist2, pushed2, via2, at2 := dist', pushed, via, at;
      RelaxNotImproving(edges, j, d, dist, dist', pushed, via, at);
    }
  }

  /** `s` without its element at `m`. */
  function RemoveAt<T>(s: seq<T>, m: nat): (r: seq<T>)
    requires m < |s|
    ensures |r| == |s| - 1
    ensures forall i :: 0 <= i < |r| ==> r[i] == s[if i < m then i else i + 1]
  {
    s[..m] + s[m + 1..]
  }

  /** `walks[v]` is a walk from `src` of weight `dist[v]` for every reached `v`: the
      ghost witnesses of `DistancesRealised`. */
  ghost predicate WalksRealise(g: AdjList, src: int, dist: seq<int>, walks: seq<seq<int>>)
  {
    && |walks| == |dist|
    && forall v :: 0 <= v < |dist| && dist[v] < INF ==>
         WalkEnd(g, src, walks[v]) == Some(v) && WalkWeight(g, src, walks[v]) == dist[v]
  }

  lemma WalksRealiseDistances(g: AdjList, src: int, dist: seq<int>, walks: seq<seq<int>>)
    requires WalksRealise(g, src, dist, walks)
    ensures DistancesRealised(g, src, dist)
  {
    forall v | 0 <= v < |dist| && dist[v] < INF
      ensures exists w :: WalkEnd(g, src, w) == Some(v) && WalkWeight(g, src, w) == dist[v]
    {
      assert WalkEnd(g, src, walks[v]) == Some(v) && WalkWeight(g, src, walks[v]) == dist[v];
    }
  }

  /** The witnesses after relaxing the edges of `u`: a lowered node is reached through
      `u` and the edge that lowered it. */
  ghost function WalksAfterRelax(walks: seq<seq<int>>, u: int, dist: seq<int>, dist': seq<int>, via: seq<int>): seq<seq<int>>
    requires |walks| == |dist| == |dist'| == |via| && 0 <= u < |walks|
  {
    seq(|walks|, v requires 0 <= v < |walks| => if dist'[v] < dist[v] then walks[u] + [via[v]] else walks[v])
  }

  /** Relaxing the edges of a node reached at distance `d` keeps every finite distance
      realised by a walk. */
  lemma RealisedAfterRelaxing(g: AdjList, src: int, u: int, d: int, dist: seq<int>, dist': seq<int>,
                              pushed: seq<Entry>, via: seq<int>, at: seq<int>, walks: seq<seq<int>>, walks': seq<seq<int>>)
    requires WalksRealise(g, src, dist, walks) && 0 <= u < |dist| && dist[u] == d < INF
    requires Relaxed(g, u, d, dist, dist', pushed, via, at)
    requires walks' == WalksAfterRelax(walks, u, dist, dist', via)
    ensures WalksRealise(g, src, dist', walks')
  {
    forall v | 0 <= v < |dist'| && dist'[v] < INF
      ensures WalkEnd(g, src, walks'[v]) == Some(v) && WalkWeight(g, src, walks'[v]) == dist'[v]
    {
      if dist'[v] < dist[v] {
        WalkExtend(g, src, walks[u], u, via[v]);
      }
    }
  }

  /** The graph `dijkstra` runs on: edges stay inside the graph, weights are not negative. */
  predicate GraphOk(g: AdjList, src: int)
  {
    ValidGraph(g) && NonNegativeWeights(g) && 0 <= src < |g|
  }

  predicate DistShape(g: AdjList, src: int, dist: seq<int>, slot: seq<int>)
  {
    && |dist| == |g| && |slot| == |g| && 0 <= src < |g| && dist[src] == 0
    && forall v :: 0 <= v < |dist| ==> 0 <= dist[v] <= INF
  }

  /** A settled node has no fresh entry left, and its distance is below every key. */
  predicate SettledBelowHeap(g: AdjList, dist: seq<int>, pq: seq<Entry>, settled: set<int>)
    requires |dist| == |g|
  {
    && settled <= NodeSet(g)
    && (forall x, i :: x in settled && 0 <= i < |pq| && pq[i].1 == x ==> pq[i].0 > dist[x])
    && (forall x, i :: x in settled && 0 <= i < |pq| ==> dist[x] <= pq[i].0)
  }

  /** The edges of a settled node are relaxed. */
  predicate SettledRelaxed(g: AdjList, dist: seq<int>, settled: set<int>)
    requires ValidGraph(g) && |dist| == |g|
  {
    forall x, j :: x in settled && 0 <= x < |g| && 0 <= j < |g[x]| ==>
      dist[g[x][j].target] <= dist[x] + g[x][j].weight
  }

  /** Every reached node is settled or has its fresh entry at `slot[v]` in the heap. */
  predicate HeapHoldsUnsettled(dist: seq<int>, pq: seq<Entry>, settled: set<int>, slot: seq<int>)
    requires |slot| == |dist|
  {
    forall v :: 0 <= v < |dist| && dist[v] < INF && v !in settled ==>
      0 <= slot[v] < |pq| && pq[slot[v]] == (dist[v], v)
  }

  /** The loop invariant of `dijkstra`, with the ghost set `settled` of nodes whose
      fresh entry has been popped and, for every other reached node `v`, the position
      `slot[v]` of its fresh entry in the heap. */
  predicate DijkstraInv(g: AdjList, src: int, dist: seq<int>, pq: seq<Entry>, settled: set<int>, slot: seq<int>)
  {
    && GraphOk(g, src) && DistShape(g, src, dist, slot)
    && EntriesValid(pq, dist) && KeysDistinctPerNode(pq)
    && SettledBelowHeap(g, dist, pq, settled)
    && SettledRelaxed(g, dist, settled)
    && HeapHoldsUnsettled(dist, pq, settled, slot)
  }

  /** Positions after the entry at `m` is removed. */
  ghost function SlotsAfterRemoval(slot: seq<int>, m: int): seq<int>
  {
    seq(|slot|, v requires 0 <= v < |slot| => if slot[v] < m then slot[v] else slot[v] - 1)
  }

  /** Removing an entry keeps the facts about the remaining entries. */
  lemma RemovalKeepsEntries(g: AdjList, dist: seq<int>, pq: seq<Entry>, settled: set<int>, m: nat, pq': seq<Entry>)
    requires |dist| == |g| && m < |pq| && pq' == RemoveAt(pq, m)
    requires EntriesValid(pq, dist) && KeysDistinctPerNode(pq) && SettledBelowHeap(g, dist, pq, settled)
    ensures EntriesValid(pq', dist) && KeysDistinctPerNode(pq') && SettledBelowHeap(g, dist, pq', settled)
  {
    forall a, b | 0 <= a < b < |pq'| && pq'[a].1 == pq'[b].1
      ensures pq'[a].0 != pq'[b].0
    {
      assert pq'[a] == pq[if a < m then a else a + 1];
      assert pq'[b] == pq[if b < m then b else b + 1];
    }
  }

  /** Removing an entry that is no node's fresh entry keeps every fresh entry, one slot
      lower when it lay above the removed one. */
  lemma RemovalKeepsSlots(dist: seq<int>, pq: seq<Entry>, settled: set<int>, slot: seq<int>,
                          m: nat, pq': seq<Entry>, slot': seq<int>)
    requires |slot| == |dist| && m < |pq| && pq' == RemoveAt(pq, m) && slot' == SlotsAfterRemoval(slot, m)
    requires HeapHoldsUnsettled(dist, pq, settled, slot)
    requires forall v :: 0 <= v < |dist| && dist[v] < INF && v !in settled ==> slot[v] != m
    ensures HeapHoldsUnsettled(dist, pq', settled, slot')
  {
  }

  /** Popping a stale entry changes nothing but the heap. */
  lemma StaleStep(g: AdjList, src: int, dist: seq<int>, pq: seq<Entry>, settled: set<int>, slot: seq<int>,
                  m: nat, pq': seq<Entry>, slot': seq<int>)
    requires DijkstraInv(g, src, dist, pq, settled, slot)
    requires m < |pq| && pq[m].0 != dist[pq[m].1]
    requires pq' == RemoveAt(pq, m) && slot' == SlotsAfterRemoval(slot, m)
    ensures DijkstraInv(g, src, dist, pq', settled, slot')
  {
    RemovalKeepsEntries(g, dist, pq, settled, m, pq');
    RemovalKeepsSlots(dist, pq, settled, slot, m, pq', slot');
  }

  /** Positions after the entry at `m` is removed and `pushed` is appended: a node
      lowered by the relaxation has its fresh entry among the pushed ones. */
  ghost function SlotsAfterRelax(slot: seq<int>, m: int, base: int, dist: seq<int>, dist': seq<int>, at: seq<int>): seq<int>
    requires |slot| == |dist| == |dist'| == |at|
  {
    seq(|slot|, v requires 0 <= v < |slot| =>
      if dist'[v] < dist[v] then base + at[v] else if slot[v] < m then slot[v] else slot[v] - 1)
  }

  /** Popping the fresh minimum entry `(d, u)` settles `u`: its distance stays below
      every remaining and every pushed key. */
  lemma FreshSettles(g: AdjList, src: int, dist: seq<int>, pq: seq<Entry>, settled: set<int>, slot: seq<int>, m: nat,
                     dist': seq<int>, pushed: seq<Entry>, via: seq<int>, at: seq<int>)
    requires DijkstraInv(g, src, dist, pq, settled, slot)
    requires m < |pq| && pq[m].0 == dist[pq[m].1]
    requires forall i :: 0 <= i < |pq| ==> EntryLe(pq[m], pq[i])
    requires Relaxed(g, pq[m].1, pq[m].0, dist, dist', pushed, via, at)
    ensures pq[m].1 !in settled
    ensures forall x :: x in settled + {pq[m].1} ==> dist'[x] == dist[x] <= pq[m].0
    ensures forall i :: 0 <= i < |pushed| ==> pushed[i].1 !in settled + {pq[m].1}
    ensures forall i :: 0 <= i < |RemoveAt(pq, m)| && RemoveAt(pq, m)[i].1 == pq[m].1 ==> RemoveAt(pq, m)[i].0 > pq[m].0
  {
    var d, u := pq[m].0, pq[m].1;
    var rest := RemoveAt(pq, m);
    forall x | x in settled + {u}
      ensures dist'[x] == dist[x] <= d
    {
      assert dist[x] <= d;
    }
    forall i | 0 <= i < |rest| && rest[i].1 == u
      ensures rest[i].0 > d
    {
      var k := if i < m then i else i + 1;
      assert rest[i] == pq[k];
    }
  }

  /** The heap after a fresh pop still satisfies the entry conditions. */
  lemma FreshEntries(pq: seq<Entry>, m: nat, dist: seq<int>, dist': seq<int>, pushed: seq<Entry>, pq': seq<Entry>)
    requires EntriesValid(pq, dist) && KeysDistinctPerNode(pq) && m < |pq|
    requires |dist'| == |dist| && forall v :: 0 <= v < |dist| ==> dist'[v] <= dist[v]
    requires EntriesValid(pushed, dist') && KeysDistinctPerNode(pushed)
    requires forall i :: 0 <= i < |pushed| ==> pushed[i].0 < dist[pushed[i].1]
    requires pq' == RemoveAt(pq, m) + pushed
    ensures EntriesValid(pq', dist') && KeysDistinctPerNode(pq')
  {
    var rest := RemoveAt(pq, m);
    forall i | 0 <= i < |pq'|
      ensures 0 <= pq'[i].1 < |dist'| && pq'[i].0 >= dist'[pq'[i].1] && 0 <= pq'[i].0 < INF
    {
      if i < |rest| { assert pq'[i] == rest[i]; } else { assert pq'[i] == pushed[i - |rest|]; }
    }
    forall a, b | 0 <= a < b < |pq'| && pq'[a].1 == pq'[b].1
      ensures pq'[a].0 != pq'[b].0
    {
      if b < |rest| {
        assert pq'[a] == pq[if a < m then a else a + 1];
        assert pq'[b] == pq[if b < m then b else b + 1];
      } else if a < |rest| {
        assert pq'[a] == rest[a] && pq'[b] == pushed[b - |rest|];
      } else {
        assert pq'[a] == pushed[a - |rest|] && pq'[b] == pushed[b - |rest|];
      }
    }
  }

  /** After a fresh pop of `(d, u)` the settled nodes, now with `u`, stay below the heap. */
  lemma FreshSettledBelow(g: AdjList, pq: seq<Entry>, m: nat, d: int, u: int, dist: seq<int>, dist': seq<int>,
                          pushed: seq<Entry>, pq': seq<Entry>, settled: set<int>)
    requires |dist| == |g| == |dist'| && 0 <= u < |g| && m < |pq| && pq[m] == (d, u)
    requires forall i :: 0 <= i < |pq| ==> d <= pq[i].0
    requires SettledBelowHeap(g, dist, pq, settled)
    requires forall x :: x in settled + {u} ==> dist'[x] == dist[x] <= d
    requires forall i :: 0 <= i < |pushed| ==> pushed[i].1 !in settled + {u} && d <= pushed[i].0
    requires forall i :: 0 <= i < |RemoveAt(pq, m)| && RemoveAt(pq, m)[i].1 == u ==> RemoveAt(pq, m)[i].0 > d
    requires pq' == RemoveAt(pq, m) + pushed
    ensures SettledBelowHeap(g, dist', pq', settled + {u})
  {
    var rest := RemoveAt(pq, m);
    forall x, i | x in settled + {u} && 0 <= i < |pq'|
      ensures dist'[x] <= pq'[i].0
      ensures pq'[i].1 == x ==> pq'[i].0 > dist'[x]
    {
      if i >= |rest| {
        assert pq'[i] == pushed[i - |rest|];
      } else {
        assert pq'[i] == rest[i] == pq[if i < m then i else i + 1];
      }
    }
  }

  /** After a fresh pop of `(d, u)` the edges of every settled node, now with `u`, are relaxed. */
  lemma FreshSettledRelaxed(g: AdjList, u: int, d: int, dist: seq<int>, dist': seq<int>, settled: set<int>)
    requires ValidGraph(g) && |dist| == |g| && |dist'| == |g| && 0 <= u < |g|
    requires SettledRelaxed(g, dist, settled)
    requires forall v :: 0 <= v < |dist| ==> dist'[v] <= dist[v]
    requires forall x :: x in settled + {u} && 0 <= x < |g| ==> dist'[x] == dist[x] <= d
    requires dist[u] == d
    requires forall j :: 0 <= j < |g[u]| ==> dist'[g[u][j].target] <= d + g[u][j].weight
    ensures SettledRelaxed(g, dist', settled + {u})
  {
  }

  /** After a fresh pop every reached node is settled or has its fresh entry in the heap. */
  lemma FreshSlots(pq: seq<Entry>, m: nat, d: int, u: int, dist: seq<int>, dist': seq<int>, pushed: seq<Entry>,
                   at: seq<int>, pq': seq<Entry>, settled: set<int>, slot: seq<int>, slot': seq<int>)
    requires |slot| == |dist| == |dist'| == |at| && m < |pq| && pq[m] == (d, u)
    requires HeapHoldsUnsettled(dist, pq, settled, slot)
    requires forall v :: 0 <= v < |dist| ==> dist'[v] <= dist[v]
    requires forall v :: 0 <= v < |dist| && dist'[v] < dist[v] ==>
      0 <= at[v] < |pushed| && pushed[at[v]] == (dist'[v], v)
    requires pq' == RemoveAt(pq, m) + pushed
    requires slot' == SlotsAfterRelax(slot, m, |pq| - 1, dist, dist', at)
    ensures HeapHoldsUnsettled(dist', pq', settled + {u}, slot')
  {
    var rest := RemoveAt(pq, m);
    forall v | 0 <= v < |dist'| && dist'[v] < INF && v !in settled + {u}
      ensures 0 <= slot'[v] < |pq'| && pq'[slot'[v]] == (dist'[v], v)
    {
      if dist'[v] < dist[v] {
        assert pq'[|rest| + at[v]] == pushed[at[v]];
      } else {
        assert slot[v] != m;
        assert pq'[slot'[v]] == rest[slot'[v]];
      }
    }
  }

  /** Popping the fresh minimum entry `(d, u)` and relaxing the edges of `u` settles `u`. */
  lemma FreshStep(g: AdjList, src: int, dist: seq<int>, pq: seq<Entry>, settled: set<int>, slot: seq<int>, m: nat,
                  dist': seq<int>, pushed: seq<Entry>, via: seq<int>, at: seq<int>,
                  pq': seq<Entry>, settled': set<int>, slot': seq<int>)
    requires DijkstraInv(g, src, dist, pq, settled, slot)
    requires m < |pq| && pq[m].0 == dist[pq[m].1]
    requires forall i :: 0 <= i < |pq| ==> EntryLe(pq[m], pq[i])
    requires Relaxed(g, pq[m].1, pq[m].0, dist, dist', pushed, via, at)
    requires pq' == RemoveAt(pq, m) + pushed && settled' == settled + {pq[m].1}
    requires slot' == SlotsAfterRelax(slot, m, |pq| - 1, dist, dist', at)
    ensures DijkstraInv(g, src, dist', pq', settled', slot')
  {
    var d, u := pq[m].0, pq[m].1;
    FreshSettles(g, src, dist, pq, settled, slot, m, dist', pushed, via, at);
    FreshEntries(pq, m, dist, dist', pushed, pq');
    FreshSettledBelow(g, pq, m, d, u, dist, dist', pushed, pq', settled);
    FreshSettledRelaxed(g, u, d, dist, dist', settled);
    FreshSlots(pq, m, d, u, dist, dist', pushed, at, pq', settled, slot, slot');
    assert dist'[src] == 0;
  }

  /** What `dijkstra` promises of its result: one distance per node, 0 at the source,
      every finite distance realised by a walk, and every edge out of a reached node
      relaxed. */
  ghost predicate ShortestPathCertificate(g: AdjList, src: int, dist: seq<int>)
  {
    && ValidGraph(g) && 0 <= src < |g|
    && |dist| == |g| && dist[src] == 0
    && (forall v :: 0 <= v < |dist| ==> dist[v] <= INF)
    && DistancesRealised(g, src, dist)
    && EdgesRelaxed(g, dist)
  }

  /** The invariant with an empty heap: every reached node is settled, so every edge out
      of a reached node is relaxed. */
  lemma DijkstraDone(g: AdjList, src: int, dist: seq<int>, settled: set<int>, slot: seq<int>, walks: seq<seq<int>>)
    requires DijkstraInv(g, src, dist, [], settled, slot) && WalksRealise(g, src, dist, walks)
    ensures ShortestPathCertificate(g, src, dist)
    ensures forall v :: 0 <= v < |dist| && !Reachable(g, src, v) ==> dist[v] == INF
  {
    WalksRealiseDistances(g, src, dist, walks);
    forall u, j | 0 <= u < |g| && 0 <= j < |g[u]| && dist[u] < INF
      ensures dist[g[u][j].target] <= dist[u] + g[u][j].weight
    {
      assert u in settled;
    }
    forall v | 0 <= v < |dist| && dist[v] < INF
      ensures Reachable(g, src, v)
    {
      assert WalkEnd(g, src, walks[v]) == Some(v);
    }
  }

  /** `dijkstra(g, src)` with a lazy-deletion binary heap: stale entries, whose key no
      longer equals the node's distance, are skipped. Termination holds because every
      popped fresh entry settles a node for good (weights are non-negative). */
  method Dijkstra(g: AdjList, src: int) returns (dist: seq<int>)
    requires ValidGraph(g) && NonNegativeWeights(g) && 0 <= src < |g|
    ensures |dist| == |g| && dist[src] == 0
    ensures forall v :: 0 <= v < |dist| ==> 0 <= dist[v] <= INF
    ensures forall v :: 0 <= v < |dist| && !Reachable(g, src, v) ==> dist[v] == INF
    ensures ShortestPathCertificate(g, src, dist)
  {
    dist := seq(|g|, _ => INF)[src := 0];
    var pq: seq<Entry> := [(0, src)];
    ghost var settled: set<int> := {};
    ghost var slot := seq(|g|, _ => 0);
    ghost var walks: seq<seq<int>> := seq(|g|, _ => []);
    assert WalkEnd(g, src, []) == Some(src) && WalkWeight(g, src, []) == 0;
    while |pq| > 0
      invariant DijkstraInv(g, src, dist, pq, settled, slot)
      invariant WalksRealise(g, src, dist, walks)
      decreases NodeSet(g) - settled, |pq|
    {
      var m := MinIndex(pq);
      var d, u := pq[m].0, pq[m].1;
      if d != dist[u] {
        ghost var pq0, slot0 := pq, slot;
        pq, slot := RemoveAt(pq, m), SlotsAfterRemoval(slot, m);
        StaleStep(g, src, dist, pq0, settled, slot0, m, pq, slot);
      } else {
        var dist', pushed, via, at := RelaxEdges(g[u], d, dist);
        ghost var walks' := WalksAfterRelax(walks, u, dist, dist', via);
        RealisedAfterRelaxing(g, src, u, d, dist, dist', pushed, via, at, walks, walks');
        ghost var slot' := SlotsAfterRelax(slot, m, |pq| - 1, dist, dist', at);
        var pq' := RemoveAt(pq, m) + pushed;
        FreshSettles(g, src, dist, pq, settled, slot, m, dist', pushed, via, at);
        FreshStep(g, src, dist, pq, settled, slot, m, dist', pushed, via, at, pq', settled + {u}, slot');
        dist, pq, settled, slot, walks := dist', pq', settled + {u}, slot', walks';
      }
    }
    DijkstraDone(g, src, dist, settled, slot, walks);
  }

  /** The distances `dijkstra` certifies are shortest: no walk of finite weight reaches
      a node more cheaply. */
  lemma {:induction false} CertifiedDistancesAreShortest(g: AdjList, src: int, dist: seq<int>, w: seq<int>)
    requires ShortestPathCertificate(g, src, dist) && NonNegativeWeights(g)
    requires WalkEnd(g, src, w).Some? && WalkWeight(g, src, w) < INF
    ensures WalkWeight(g, src, w) >= 0
    ensures dist[WalkEnd(g, src, w).value] <= WalkWeight(g, src, w)
    decreases |w|
  {
    if |w| > 0 {
      var p := w[..|w| - 1];
      CertifiedDistancesAreShortest(g, src, dist, p);
    }
  }

  /** A potential that starts at 0 and never grows faster than an edge's weight bounds
      every walk's weight from below. */
  lemma {:induction false} PotentialBoundsWalks(g: AdjList, src: int, pot: seq<int>, w: seq<int>)
    requires ValidGraph(g) && |pot| == |g| && 0 <= src < |g| && pot[src] == 0
    requires forall u, j :: 0 <= u < |g| && 0 <= j < |g[u]| ==> pot[g[u][j].target] <= pot[u] + g[u][j].weight
    requires WalkEnd(g, src, w).Some?
    ensures 0 <= WalkEnd(g, src, w).value < |g|
    ensures pot[WalkEnd(g, src, w).value] <= WalkWeight(g, src, w)
    decreases |w|
  {
    if |w| > 0 {
      PotentialBoundsWalks(g, src, pot, w[..|w| - 1]);
    }
  }

  /** The unit test's graph: undirected edges 0-1 (1), 1-2 (2), 0-2 (4), 2-3 (1),
      each added in both directions in that order. */
  function TestGraph(): AdjList
  {
    [ [Edge(1, 1), Edge(2, 4)],
      [Edge(0, 1), Edge(2, 2)],
      [Edge(1, 2), Edge(0, 4), Edge(3, 1)],
      [Edge(2, 1)] ]
  }

  /** The distances the unit test expects from node 0. */
  function TestDistances(): seq<int>
  {
    [0, 1, 3, 4]
  }

  /** The test graph is well formed, and `[0, 1, 3, 4]` grows along no edge by more than
      the edge's weight. */
  lemma TestGraphFacts()
    ensures ValidGraph(TestGraph()) && NonNegativeWeights(TestGraph())
    ensures var g, pot := TestGraph(), TestDistances();
      forall u, j :: 0 <= u < |g| && 0 <= j < |g[u]| ==> pot[g[u][j].target] <= pot[u] + g[u][j].weight
  {
    var g: AdjList, pot: seq<int> := TestGraph(), TestDistances();
    forall u: int, j: int | 0 <= u < |g| && 0 <= j < |g[u]|
      ensures 0 <= g[u][j].target < |g| && g[u][j].weight >= 0
      ensures pot[g[u][j].target] <= pot[u] + g[u][j].weight
    {
      assert u == 0 || u == 1 || u == 2 || u == 3;
    }
  }

  /** A sequence of four given elements is that literal. */
  lemma FourElements(s: seq<int>, a: int, b: int, c: int, d: int)
    requires |s| == 4 && s[0] == a && s[1] == b && s[2] == c && s[3] == d
    ensures s == [a, b, c, d]
  {
  }

  /** The walks 0 -> 1, 0 -> 1 -> 2 and 0 -> 1 -> 2 -> 3 of the test graph and their weights. */
  lemma TestGraphWalks()
    ensures WalkEnd(TestGraph(), 0, [0]) == Some(1) && WalkWeight(TestGraph(), 0, [0]) == 1
    ensures WalkEnd(TestGraph(), 0, [0, 1]) == Some(2) && WalkWeight(TestGraph(), 0, [0, 1]) == 3
    ensures WalkEnd(TestGraph(), 0, [0, 1, 2]) == Some(3) && WalkWeight(TestGraph(), 0, [0, 1, 2]) == 4
  {
    var g := TestGraph();
    assert WalkEnd(g, 0, []) == Some(0) && WalkWeight(g, 0, []) == 0;
    WalkExtend(g, 0, [], 0, 0);
    assert [] + [0] == [0];
    WalkExtend(g, 0, [0], 1, 1);
    assert [0] + [1] == [0, 1];
    WalkExtend(g, 0, [0, 1], 2, 2);
    assert [0, 1] + [2] == [0, 1, 2];
  }

  /** These walks bound the certified distances from above. */
  lemma TestGraphUpperBounds(dist: seq<int>)
    requires ShortestPathCertificate(TestGraph(), 0, dist)
    ensures dist[1] <= 1 && dist[2] <= 3 && dist[3] <= 4
  {
    var g := TestGraph();
    TestGraphFacts();
    TestGraphWalks();
    CertifiedDistancesAreShortest(g, 0, dist, [0]);
    CertifiedDistancesAreShortest(g, 0, dist, [0, 1]);
    CertifiedDistancesAreShortest(g, 0, dist, [0, 1, 2]);
  }

  /** Every finite certified distance is realised by a walk, which the expected distances
      bound from below. */
  lemma TestGraphLowerBounds(dist: seq<int>)
    requires ShortestPathCertificate(TestGraph(), 0, dist)
    ensures forall v :: 0 <= v < 4 ==> TestDistances()[v] <= dist[v]
  {
    var g, pot := TestGraph(), TestDistances();
    TestGraphFacts();
    forall v | 0 <= v < 4
      ensures pot[v] <= dist[v]
    {
      if dist[v] < INF {
        var w :| WalkEnd(g, 0, w) == Some(v) && WalkWeight(g, 0, w) == dist[v];
        PotentialBoundsWalks(g, 0, pot, w);
      }
    }
  }

  /** Any result `dijkstra` may return on the test graph from node 0 is exactly [0, 1, 3, 4]. */
  lemma TestGraphDistances(dist: seq<int>)
    requires ShortestPathCertificate(TestGraph(), 0, dist)
    ensures dist == TestDistances()
  {
    TestGraphUpperBounds(dist);
    TestGraphLowerBounds(dist);
    var pot := TestDistances();
    assert pot[1] <= dist[1] && pot[2] <= dist[2] && pot[3] <= dist[3];
    FourElements(dist, 0, 1, 3, 4);
  }

  // ------------------------------------------------------- breadth-first search

  /** The state of `bfs`: the queue is kept as the sequence `disc` of every node ever
      enqueued, of which the first `head` have been popped and printed. `seen[v]` holds
      exactly for the enqueued nodes (ghost `visited`, with `v` at `disc[pos[v]]`), and
      `walks[i]` is a walk from `start` to `disc[i]`. */
  ghost predicate BfsState(g: AdjList, start: int, seen: seq<bool>, disc: seq<int>,
                           walks: seq<seq<int>>, pos: seq<int>, visited: set<int>)
  {
    && |seen| == |g| && |pos| == |g| && |walks| == |disc| && |disc| > 0 && disc[0] == start
    && visited <= NodeSet(g)
    && (forall v :: 0 <= v < |g| ==> (seen[v] <==> v in visited))
    && (forall v :: 0 <= v < |g| && seen[v] ==> 0 <= pos[v] < |disc| && disc[pos[v]] == v)
    && (forall i :: 0 <= i < |disc| ==> 0 <= disc[i] < |g| && seen[disc[i]])
    && (forall i :: 0 <= i < |disc| ==> WalkEnd(g, start, walks[i]) == Some(disc[i]))
    && Distinct(disc)
  }

  /** Every neighbour of a popped node has been enqueued. */
  ghost predicate PoppedClosed(g: AdjList, seen: seq<bool>, disc: seq<int>, head: int)
    requires |seen| == |g| && ValidGraph(g) && head <= |disc|
    requires forall i :: 0 <= i < |disc| ==> 0 <= disc[i] < |g|
  {
    forall i, k :: 0 <= i < head && 0 <= k < |g[disc[i]]| ==> seen[g[disc[i]][k].target]
  }

  /** The scan of `edges` moves past an edge whose target is already seen. */
  lemma SeenThroughStep(edges: seq<Edge>, seen: seq<bool>, j: int)
    requires 0 <= j < |edges| && forall k :: 0 <= k < |edges| ==> 0 <= edges[k].target < |seen|
    requires forall k :: 0 <= k < j ==> seen[edges[k].target]
    requires seen[edges[j].target]
    ensures forall k :: 0 <= k < j + 1 ==> seen[edges[k].target]
  {
  }

  /** Popping `disc[head]` once all its neighbours are seen. */
  lemma PoppedClosedStep(g: AdjList, seen: seq<bool>, disc: seq<int>, head: int)
    requires |seen| == |g| && ValidGraph(g) && 0 <= head < |disc|
    requires forall i :: 0 <= i < |disc| ==> 0 <= disc[i] < |g|
    requires PoppedClosed(g, seen, disc, head)
    requires forall k :: 0 <= k < |g[disc[head]]| ==> seen[g[disc[head]][k].target]
    ensures PoppedClosed(g, seen, disc, head + 1)
  {
  }

  /** Enqueueing an unseen node reached by the walk `wv`. */
  lemma BfsEnqueue(g: AdjList, start: int, seen: seq<bool>, disc: seq<int>, walks: seq<seq<int>>,
                   pos: seq<int>, visited: set<int>, v: int, wv: seq<int>, head: int, u: int, j: int,
                   seen': seq<bool>, disc': seq<int>, walks': seq<seq<int>>, pos': seq<int>, visited': set<int>)
    requires ValidGraph(g) && BfsState(g, start, seen, disc, walks, pos, visited)
    requires 0 <= head < |disc| && PoppedClosed(g, seen, disc, head)
    requires 0 <= u < |g| && 0 <= j < |g[u]| && g[u][j].target == v
    requires forall k :: 0 <= k < j ==> seen[g[u][k].target]
    requires 0 <= v < |g| && !seen[v] && WalkEnd(g, start, wv) == Some(v)
    requires seen' == seen[v := true] && disc' == disc + [v] && walks' == walks + [wv]
    requires pos' == pos[v := |disc|] && visited' == visited + {v}
    ensures BfsState(g, start, seen', disc', walks', pos', visited')
    ensures v !in visited && disc'[head] == disc[head]
    ensures PoppedClosed(g, seen', disc', head)
    ensures forall k :: 0 <= k < j + 1 ==> seen'[g[u][k].target]
  {
    forall i, k | 0 <= i < head && 0 <= k < |g[disc'[i]]|
      ensures seen'[g[disc'[i]][k].target]
    {
      assert disc'[i] == disc[i];
    }
    forall a, b | 0 <= a < b < |disc'|
      ensures disc'[a] != disc'[b]
    {
      if b == |disc| {
        assert seen[disc[a]];
      }
    }
    forall x | 0 <= x < |g| && seen'[x]
      ensures 0 <= pos'[x] < |disc'| && disc'[pos'[x]] == x
    {
      if x != v {
        assert disc'[pos[x]] == disc[pos[x]];
      }
    }
  }

  /** Once every enqueued node is popped, the enqueued nodes are exactly the reachable ones. */
  lemma BfsDone(g: AdjList, start: int, seen: seq<bool>, disc: seq<int>, walks: seq<seq<int>>,
                pos: seq<int>, visited: set<int>)
    requires ValidGraph(g) && BfsState(g, start, seen, disc, walks, pos, visited)
    requires PoppedClosed(g, seen, disc, |disc|)
    ensures forall v :: v in disc <==> 0 <= v < |g| && Reachable(g, start, v)
  {
    var closed := set x | 0 <= x < |g| && seen[x];
    forall x, k | x in closed && 0 <= x < |g| && 0 <= k < |g[x]|
      ensures g[x][k].target in closed
    {
      assert disc[pos[x]] == x;
    }
    forall v | 0 <= v < |g| && Reachable(g, start, v)
      ensures v in disc
    {
      var w :| WalkEnd(g, start, w) == Some(v);
      ClosedSetHoldsWalkEnds(g, start, closed, w);
      assert disc[pos[v]] == v;
    }
    forall v | v in disc
      ensures 0 <= v < |g| && Reachable(g, start, v)
    {
      var i :| 0 <= i < |disc| && disc[i] == v;
      assert WalkEnd(g, start, walks[i]) == Some(v);
    }
  }

  /** `bfs(g, s)`: a node is marked seen when it is enqueued, so it is enqueued and
      visited at most once. Returns the visit order the source prints. */
  method Bfs(g: AdjList, start: int) returns (order: seq<int>)
    requires ValidGraph(g) && 0 <= start < |g|
    ensures |order| > 0 && order[0] == start
    ensures Distinct(order)
    ensures forall v :: v in order <==> 0 <= v < |g| && Reachable(g, start, v)
  {
    var seen := seq(|g|, _ => false)[start := true];
    var disc := [start];
    var head := 0;
    ghost var walks: seq<seq<int>> := [[]];
    ghost var pos := seq(|g|, _ => 0);
    ghost var visited := {start};
    assert WalkEnd(g, start, []) == Some(start);
    while head < |disc|
      invariant BfsState(g, start, seen, disc, walks, pos, visited)
      invariant 0 <= head <= |disc| && PoppedClosed(g, seen, disc, head)
      decreases NodeSet(g) - visited, |disc| - head
    {
      var u := disc[head];
      ghost var visited0, size0 := visited, |disc|;
      var j := 0;
      while j < |g[u]|
        invariant BfsState(g, start, seen, disc, walks, pos, visited)
        invariant 0 <= head < |disc| && disc[head] == u && PoppedClosed(g, seen, disc, head)
        invariant 0 <= j <= |g[u]| && forall k :: 0 <= k < j ==> seen[g[u][k].target]
        invariant visited0 <= visited && (visited == visited0 ==> |disc| == size0)
      {
        var v := g[u][j].target;
        if !seen[v] {
          WalkExtend(g, start, walks[head], u, j);
          ghost var seen0, disc0, walks0, pos0, visitedBefore := seen, disc, walks, pos, visited;
          seen, disc := seen[v := true], disc + [v];
          walks, pos, visited := walks + [walks0[head] + [j]], pos[v := |disc0|], visited + {v};
          BfsEnqueue(g, start, seen0, disc0, walks0, pos0, visitedBefore, v, walks0[head] + [j], head, u, j,
                     seen, disc, walks, pos, visited);
        } else {
          SeenThroughStep(g[u], seen, j);
        }
        j := j + 1;
      }
      PoppedClosedStep(g, seen, disc, head);
      head := head + 1;
    }
    BfsDone(g, start, seen, disc, walks, pos, visited);
    order := disc;
  }

  // --------------------------------------------------------- depth-first search

  /** Every node reachable from the target of edge `j` of `u` is reachable from `u`. */
  lemma ReachableThroughEdge(g: AdjList, u: int, j: int)
    requires ValidGraph(g) && 0 <= u < |g| && 0 <= j < |g[u]|
    ensures forall x :: Reachable(g, g[u][j].target, x) ==> Reachable(g, u, x)
  {
    forall x | Reachable(g, g[u][j].target, x)
      ensures Reachable(g, u, x)
    {
      var w :| WalkEnd(g, g[u][j].target, w) == Some(x);
      WalkPrepend(g, u, j, w);
    }
  }

  /** `dfs_rec(g, u, seen, order)` entered with `u` unseen: returns the nodes it
      appends to `order` and the new `seen` set. */
  function DfsVisit(g: AdjList, u: int, seen: set<int>): (r: (seq<int>, set<int>))
    requires ValidGraph(g) && 0 <= u < |g| && u !in seen && seen <= NodeSet(g)
    ensures seen <= r.1 <= NodeSet(g)
    ensures forall x :: x in r.1 <==> x in seen || x in r.0
    ensures forall x :: x in r.0 ==> x !in seen
    ensures Distinct(r.0) && |r.0| > 0 && r.0[0] == u
    ensures forall x :: x in r.0 ==> Reachable(g, u, x)
    ensures forall x, j :: x in r.0 && 0 <= x < |g| && 0 <= j < |g[x]| ==> g[x][j].target in r.1
    decreases NodeSet(g) - seen, 0
  {
    assert WalkEnd(g, u, []) == Some(u);
    var r := DfsEdges(g, u, 0, seen + {u});
    ([u] + r.0, r.1)
  }

  /** The loop of `dfs_rec` over the edges of `u` from index `j` on. */
  function DfsEdges(g: AdjList, u: int, j: int, seen: set<int>): (r: (seq<int>, set<int>))
    requires ValidGraph(g) && 0 <= u < |g| && 0 <= j <= |g[u]| && seen <= NodeSet(g)
    ensures seen <= r.1 <= NodeSet(g)
    ensures forall x :: x in r.1 <==> x in seen || x in r.0
    ensures forall x :: x in r.0 ==> x !in seen
    ensures Distinct(r.0)
    ensures forall x :: x in r.0 ==> Reachable(g, u, x)
    ensures forall x, k :: x in r.0 && 0 <= x < |g| && 0 <= k < |g[x]| ==> g[x][k].target in r.1
    ensures forall k :: j <= k < |g[u]| ==> g[u][k].target in r.1
    decreases NodeSet(g) - seen, 1, |g[u]| - j
  {
    if j == |g[u]| then ([], seen)
    else
      var v := g[u][j].target;
      if v in seen then DfsEdges(g, u, j + 1, seen)
      else
        var a := DfsVisit(g, v, seen);
        var b := DfsEdges(g, u, j + 1, a.1);
        ReachableThroughEdge(g, u, j);
        DistinctConcat(a.0, b.0);
        (a.0 + b.0, b.1)
  }

  /** `dfs(g, s)`: the preorder of a depth-first search from `start`. */
  function Dfs(g: AdjList, start: int): (order: seq<int>)
    requires ValidGraph(g) && 0 <= start < |g|
    ensures |order| > 0 && order[0] == start
    ensures Distinct(order)
    ensures forall v :: v in order <==> 0 <= v < |g| && Reachable(g, start, v)
  {
    var r := DfsVisit(g, start, {});
    DfsFindsAllReachable(g, start, r.0);
    r.0
  }

  /** A visit order that is closed under edges holds every reachable node. */
  lemma DfsFindsAllReachable(g: AdjList, start: int, order: seq<int>)
    requires start in order
    requires forall x, j :: x in order && 0 <= x < |g| && 0 <= j < |g[x]| ==> g[x][j].target in order
    ensures forall v :: Reachable(g, start, v) ==> v in order
  {
    var nodes := set x | x in order;
    forall v | Reachable(g, start, v)
      ensures v in order
    {
      var w :| WalkEnd(g, start, w) == Some(v);
      ClosedSetHoldsWalkEnds(g, start, nodes, w);
    }
  }
}
