/**
 * `Graph.dijkstra` of vertex-centrality/ClosenessCentrality.java: single-source
 * shortest distances, driven by the bucketed adaptable priority queue.
 *
 * The routine seeds the queue with every vertex (the source at 0, the rest at
 * `INF`), repeatedly removes a vertex of least key, stops at the first key
 * equal to `INF`, records the removed vertex as visited, and lowers the key of
 * each unvisited neighbour reached more cheaply through it. The map of visited
 * vertices is the result.
 */
module ShortestPaths {
  import opened Wrappers
  import opened WeightedGraph
  import Q = AdaptableQueue

  /** Every vertex is either visited or still queued, and never both. */
  ghost predicate Partition(n: nat, dist: map<nat, int>, keys: map<nat, int>) {
    && (forall v | v in dist :: v < n)
    && (forall v | v in keys :: v < n)
    && (forall v | 0 <= v < n :: v in dist <==> v !in keys)
  }

  /**
   * Every visited distance, and every queued key below `INF`, is the weight of
   * a walk from `s` (recorded in `paths`); no key exceeds `INF`.
   */
  ghost predicate Witnessed(g: Graph, s: nat, dist: map<nat, int>, keys: map<nat, int>, paths: map<nat, seq<nat>>) {
    && (forall v | v in dist :: dist[v] < INF && v in paths && IsPath(g, s, v, paths[v]) && Weight(g, paths[v]) == dist[v])
    && (forall v | v in keys :: keys[v] <= INF)
    && (forall v | v in keys && keys[v] < INF :: v in paths && IsPath(g, s, v, paths[v]) && Weight(g, paths[v]) == keys[v])
  }

  /** Edge `i` of visited vertex `x` has been relaxed: its target's key is at most the cost through `x`. */
  ghost predicate RelaxedEdge(g: Graph, dist: map<nat, int>, keys: map<nat, int>, x: nat, i: nat)
    requires x in dist && x < |g| && i < |g[x]|
  {
    g[x][i].to in keys ==> keys[g[x][i].to] <= dist[x] + g[x][i].weight
  }

  /** Every edge out of a visited vertex is relaxed, except the edges of `u` from index `j` on. */
  ghost predicate RelaxedExcept(g: Graph, dist: map<nat, int>, keys: map<nat, int>, u: nat, j: nat) {
    forall x, i | x in dist && x < |g| && 0 <= i < |g[x]| && (x == u ==> i < j) :: RelaxedEdge(g, dist, keys, x, i)
  }

  ghost predicate FullyRelaxed(g: Graph, dist: map<nat, int>, keys: map<nat, int>) {
    forall x, i | x in dist && x < |g| && 0 <= i < |g[x]| :: RelaxedEdge(g, dist, keys, x, i)
  }

  /** No walk from `s` to a visited vertex is lighter than its recorded distance. */
  ghost predicate LowerBounds(g: Graph, s: nat, dist: map<nat, int>) {
    forall v, p | v in dist && IsPath(g, s, v, p) :: dist[v] <= Weight(g, p)
  }

  /**
   * The key fact behind Dijkstra's algorithm: with non-negative weights, when
   * every visited vertex is settled and every edge out of it relaxed, any walk
   * from `s` that ends at a queued vertex weighs at least the least queued key.
   */
  lemma {:induction false} Frontier(g: Graph, s: nat, dist: map<nat, int>, keys: map<nat, int>, m: int, v: nat, p: seq<nat>)
    requires WellFormed(g) && NonNegative(g)
    requires Partition(|g|, dist, keys)
    requires FullyRelaxed(g, dist, keys)
    requires LowerBounds(g, s, dist)
    requires s in keys ==> keys[s] <= 0
    requires forall y | y in keys :: m <= keys[y]
    requires IsPath(g, s, v, p)
    requires v in keys
    ensures m <= Weight(g, p)
    decreases |p|
  {
    if |p| > 1 {
      var x := p[|p| - 2];
      var p' := p[..|p| - 1];
      Split(g, s, v, p);
      var i := IndexOf(g[x], v).value;
      var w := g[x][i].weight;
      assert Weight(g, p) == Weight(g, p') + w;
      assert w >= 0;
      if x in dist {
        assert dist[x] <= Weight(g, p');
        assert RelaxedEdge(g, dist, keys, x, i);
      } else {
        Frontier(g, s, dist, keys, m, x, p');
      }
    } else {
      assert v == s;
    }
  }

  /** Removing a vertex `u` of least key `k < INF` and marking it visited keeps every invariant. */
  lemma Visit(g: Graph, s: nat, dist: map<nat, int>, keys: map<nat, int>, paths: map<nat, seq<nat>>, u: nat, k: int,
              dist': map<nat, int>, keys': map<nat, int>)
    requires WellFormed(g)
    requires Partition(|g|, dist, keys)
    requires Witnessed(g, s, dist, keys, paths)
    requires FullyRelaxed(g, dist, keys)
    requires s in keys ==> keys[s] <= 0
    requires NonNegative(g) ==> LowerBounds(g, s, dist)
    requires u in keys && keys[u] == k && k < INF
    requires forall y | y in keys :: k <= keys[y]
    requires dist' == dist[u := k] && keys' == keys - {u}
    ensures Partition(|g|, dist', keys')
    ensures Witnessed(g, s, dist', keys', paths)
    ensures RelaxedExcept(g, dist', keys', u, 0)
    ensures s in keys' ==> keys'[s] <= 0
    ensures NonNegative(g) ==> LowerBounds(g, s, dist')
  {
    assert u !in dist;
    forall x, i | x in dist' && x < |g| && 0 <= i < |g[x]| && (x == u ==> i < 0)
      ensures RelaxedEdge(g, dist', keys', x, i)
    {
      assert RelaxedEdge(g, dist, keys, x, i);
    }
    if NonNegative(g) {
      forall v, p | v in dist' && IsPath(g, s, v, p) ensures dist'[v] <= Weight(g, p) {
        if v == u {
          Frontier(g, s, dist, keys, k, v, p);
        }
      }
    }
  }

  /** An edge whose target is visited, or already keyed at most the cost through `u`, is relaxed as it stands. */
  lemma Keep(g: Graph, dist: map<nat, int>, keys: map<nat, int>, u: nat, j: nat, t: nat, w: int)
    requires u in dist && u < |g| && j < |g[u]|
    requires t == g[u][j].to && w == g[u][j].weight
    requires RelaxedExcept(g, dist, keys, u, j)
    requires t in keys ==> keys[t] <= dist[u] + w
    ensures RelaxedExcept(g, dist, keys, u, j + 1)
  {
    forall x, i | x in dist && x < |g| && 0 <= i < |g[x]| && (x == u ==> i < j + 1)
      ensures RelaxedEdge(g, dist, keys, x, i)
    {
      assert x != u || i < j ==> RelaxedEdge(g, dist, keys, x, i);
    }
  }

  /** Lowering the key of an unvisited target `t` to the cost `alt` through `u` keeps keys witnessed. */
  lemma Lower(g: Graph, s: nat, dist: map<nat, int>, keys: map<nat, int>, paths: map<nat, seq<nat>>, u: nat, j: nat,
              t: nat, alt: int, keys': map<nat, int>, paths': map<nat, seq<nat>>)
    requires WellFormed(g)
    requires u in dist && u < |g| && j < |g[u]|
    requires t == g[u][j].to && alt == dist[u] + g[u][j].weight
    requires Partition(|g|, dist, keys)
    requires Witnessed(g, s, dist, keys, paths)
    requires s in keys ==> keys[s] <= 0
    requires t in keys && alt < keys[t]
    requires keys' == keys[t := alt]
    requires paths' == paths[t := paths[u] + [t]]
    ensures Partition(|g|, dist, keys')
    ensures Witnessed(g, s, dist, keys', paths')
    ensures s in keys' ==> keys'[s] <= 0
  {
    var w := g[u][j].weight;
    assert Lookup(g[u], t) == Some(w);
    Extend(g, s, u, paths[u], t, w);
    forall v | v in keys' && keys'[v] < INF
      ensures v in paths' && IsPath(g, s, v, paths'[v]) && Weight(g, paths'[v]) == keys'[v]
    {
      assert v != t ==> keys[v] == keys'[v];
    }
  }

  /** Lowering the key of edge `j`'s target `t` to the cost `alt` through `u` relaxes that edge and keeps the others relaxed. */
  lemma LowerRelaxes(g: Graph, dist: map<nat, int>, keys: map<nat, int>, u: nat, j: nat, t: nat, alt: int, keys': map<nat, int>)
    requires u in dist && u < |g| && j < |g[u]|
    requires t == g[u][j].to && alt == dist[u] + g[u][j].weight
    requires RelaxedExcept(g, dist, keys, u, j)
    requires t in keys && alt < keys[t]
    requires keys' == keys[t := alt]
    ensures RelaxedExcept(g, dist, keys', u, j + 1)
  {
    forall x, i | x in dist && x < |g| && 0 <= i < |g[x]| && (x == u ==> i < j + 1)
      ensures RelaxedEdge(g, dist, keys', x, i)
    {
      assert x != u || i < j ==> RelaxedEdge(g, dist, keys, x, i);
    }
  }

  /** When the least queued key is `INF`, every vertex not visited is unreachable below `INF`. */
  lemma CutOff(g: Graph, s: nat, dist: map<nat, int>, keys: map<nat, int>)
    requires WellFormed(g) && NonNegative(g)
    requires Partition(|g|, dist, keys)
    requires FullyRelaxed(g, dist, keys)
    requires LowerBounds(g, s, dist)
    requires s in keys ==> keys[s] <= 0
    requires forall y | y in keys :: INF <= keys[y]
    ensures forall v | 0 <= v < |g| && v !in dist :: Unreachable(g, s, v)
  {
    forall v, p | 0 <= v < |g| && v !in dist && IsPath(g, s, v, p) ensures Weight(g, p) >= INF {
      Frontier(g, s, dist, keys, INF, v, p);
    }
  }

  /**
   * The seeding loop of `dijkstra`: every vertex enters the queue, the source
   * with key 0 and every other vertex with key `INF`.
   */
  method Seed(n: nat, s: nat) returns (q: Q.Queue)
    ensures Q.Valid(q)
    ensures Seeded(q.keyOf, n, s)
  {
    q := Q.Empty();
    var v := 0;
    while v < n
      invariant v <= n
      invariant Q.Valid(q)
      invariant Seeded(q.keyOf, v, s)
    {
      var key := if v == s then 0 else INF;
      ghost var before := q.keyOf;
      q := Q.Insert(q, key, v);
      SeedStep(before, v, s, q.keyOf);
      v := v + 1;
    }
  }

  /** The keys of the first `n` vertices as seeded: 0 for the source `s`, `INF` for the others. */
  ghost predicate Seeded(keys: map<nat, int>, n: nat, s: nat) {
    && (forall h | h in keys :: h < n)
    && (forall h | 0 <= h < n :: h in keys && keys[h] == if h == s then 0 else INF)
  }

  lemma SeedStep(keys: map<nat, int>, n: nat, s: nat, keys': map<nat, int>)
    requires Seeded(keys, n, s)
    requires keys' == keys[n := if n == s then 0 else INF]
    ensures Seeded(keys', n + 1, s)
  {
  }

  /**
   * The inner loop of `dijkstra` for the vertex `u` just visited at distance
   * `dist[u]`: each edge to an unvisited target whose key exceeds the cost
   * through `u` lowers that key (`replaceKey`). Afterwards every edge out of a
   * visited vertex is relaxed, and no vertex entered or left the queue.
   */
  method RelaxEdges(g: Graph, ghost s: nat, dist: map<nat, int>, q0: Q.Queue, u: nat, ghost paths0: map<nat, seq<nat>>)
    returns (q: Q.Queue, ghost paths: map<nat, seq<nat>>)
    requires WellFormed(g)
    requires u in dist && u < |g|
    requires Q.Valid(q0)
    requires Partition(|g|, dist, q0.keyOf)
    requires Witnessed(g, s, dist, q0.keyOf, paths0)
    requires RelaxedExcept(g, dist, q0.keyOf, u, 0)
    requires s in q0.keyOf ==> q0.keyOf[s] <= 0
    ensures Q.Valid(q)
    ensures |q.keyOf| == |q0.keyOf|
    ensures Partition(|g|, dist, q.keyOf)
    ensures Witnessed(g, s, dist, q.keyOf, paths)
    ensures FullyRelaxed(g, dist, q.keyOf)
    ensures s in q.keyOf ==> q.keyOf[s] <= 0
  {
    q, paths := q0, paths0;
    var edges := g[u];
    var j := 0;
    while j < |edges|
      invariant j <= |edges|
      invariant Q.Valid(q)
      invariant |q.keyOf| == |q0.keyOf|
      invariant Partition(|g|, dist, q.keyOf)
      invariant Witnessed(g, s, dist, q.keyOf, paths)
      invariant RelaxedExcept(g, dist, q.keyOf, u, j)
      invariant s in q.keyOf ==> q.keyOf[s] <= 0
    {
      q, paths := RelaxOne(g, s, dist, q, u, j, paths);
      j := j + 1;
    }
    forall x, i | x in dist && x < |g| && 0 <= i < |g[x]| ensures RelaxedEdge(g, dist, q.keyOf, x, i) {
    }
  }

  /** One pass of the inner loop: edge `j` of `u`, relaxed as `dijkstra` does. */
  method RelaxOne(g: Graph, ghost s: nat, dist: map<nat, int>, q0: Q.Queue, u: nat, j: nat, ghost paths0: map<nat, seq<nat>>)
    returns (q: Q.Queue, ghost paths: map<nat, seq<nat>>)
    requires WellFormed(g)
    requires u in dist && u < |g| && j < |g[u]|
    requires Q.Valid(q0)
    requires Partition(|g|, dist, q0.keyOf)
    requires Witnessed(g, s, dist, q0.keyOf, paths0)
    requires RelaxedExcept(g, dist, q0.keyOf, u, j)
    requires s in q0.keyOf ==> q0.keyOf[s] <= 0
    ensures Q.Valid(q)
    ensures |q.keyOf| == |q0.keyOf|
    ensures Partition(|g|, dist, q.keyOf)
    ensures Witnessed(g, s, dist, q.keyOf, paths)
    ensures RelaxedExcept(g, dist, q.keyOf, u, j + 1)
    ensures s in q.keyOf ==> q.keyOf[s] <= 0
  {
    q, paths := q0, paths0;
    var t, w := g[u][j].to, g[u][j].weight;
    if t !in dist {
      var alt := dist[u] + w;
      if alt < q.keyOf[t] {
        q := Q.ReplaceKey(q, t, alt);
        paths := paths[t := paths[u] + [t]];
        Lower(g, s, dist, q0.keyOf, paths0, u, j, t, alt, q.keyOf, paths);
        LowerRelaxes(g, dist, q0.keyOf, u, j, t, alt, q.keyOf);
      } else {
        Keep(g, dist, q.keyOf, u, j, t, w);
      }
    } else {
      Keep(g, dist, q.keyOf, u, j, t, w);
    }
  }

  /** `removeMin` on a non-empty queue, as `dijkstra` uses it: a handle of least key, its key, and the rest. */
  method PopMin(q: Q.Queue) returns (u: nat, k: int, rest: Q.Queue)
    requires Q.Valid(q) && !Q.IsEmpty(q)
    ensures Q.Valid(rest)
    ensures u in q.keyOf && k == q.keyOf[u]
    ensures forall y | y in q.keyOf :: k <= q.keyOf[y]
    ensures rest.keyOf == q.keyOf - {u}
  {
    var removal := Q.RemoveMin(q);
    var entry := removal.entry.value;
    u, k, rest := entry.handle, entry.key, removal.rest;
  }

  /**
   * The invariant of `dijkstra`'s main loop over the visited map `dist` and the
   * queue's keys: a partition of the vertices, witnessed distances and keys,
   * relaxed edges, settled distances when weights are non-negative, and the
   * source visited first, at distance 0.
   */
  ghost predicate Inv(g: Graph, s: nat, dist: map<nat, int>, keys: map<nat, int>, paths: map<nat, seq<nat>>) {
    && Partition(|g|, dist, keys)
    && Witnessed(g, s, dist, keys, paths)
    && FullyRelaxed(g, dist, keys)
    && (s in keys ==> keys[s] <= 0)
    && (NonNegative(g) ==> LowerBounds(g, s, dist))
    && (s in dist ==> dist[s] == 0)
    && (s !in dist ==> (forall v :: v !in dist) && Seeded(keys, |g|, s))
  }

  /** The freshly seeded queue, with nothing visited, satisfies the loop invariant. */
  lemma Initial(g: Graph, s: nat, keys: map<nat, int>, paths: map<nat, seq<nat>>)
    requires WellFormed(g) && s < |g|
    requires Seeded(keys, |g|, s)
    requires paths == map[s := [s]]
    ensures Inv(g, s, map[], keys, paths)
  {
    assert IsPath(g, s, s, [s]) && Weight(g, [s]) == 0;
  }

  /** Visiting `u` at `k` keeps the source visited first, at distance 0. */
  lemma SourceFirst(g: Graph, s: nat, dist: map<nat, int>, keys: map<nat, int>, u: nat, k: int, dist': map<nat, int>)
    requires s < |g|
    requires s in dist ==> dist[s] == 0
    requires s !in dist ==> (forall v :: v !in dist) && Seeded(keys, |g|, s)
    requires u in keys && u !in dist && keys[u] == k && k < INF
    requires dist' == dist[u := k]
    ensures s in dist' && dist'[s] == 0
  {
    if s !in dist {
      assert u < |g|;
      assert keys[u] == if u == s then 0 else INF;
      assert u == s && k == 0;
    }
  }

  /**
   * One pass of `dijkstra`'s main loop: remove a vertex of least key; if that
   * key is `INF`, stop (`done`); otherwise visit the vertex and relax its edges.
   */
  method Step(g: Graph, ghost s: nat, dist0: map<nat, int>, q0: Q.Queue, ghost paths0: map<nat, seq<nat>>)
    returns (done: bool, dist: map<nat, int>, q: Q.Queue, ghost paths: map<nat, seq<nat>>)
    requires WellFormed(g) && s < |g|
    requires Q.Valid(q0) && !Q.IsEmpty(q0)
    requires Inv(g, s, dist0, q0.keyOf, paths0)
    ensures Q.Valid(q) && Inv(g, s, dist, q.keyOf, paths)
    ensures done ==> forall y | y in q.keyOf :: INF <= q.keyOf[y]
    ensures !done ==> |q.keyOf| < |q0.keyOf|
  {
    var u, k, rest := PopMin(q0);
    if k == INF {
      return true, dist0, q0, paths0;
    }
    done := false;
    dist, q, paths := Advance(g, s, dist0, q0, paths0, u, k, rest);
  }

  /** The rest of a pass once `u` of least key `k < INF` is removed: visit `u`, then relax its edges. */
  method Advance(g: Graph, ghost s: nat, dist0: map<nat, int>, ghost q0: Q.Queue, ghost paths0: map<nat, seq<nat>>,
                 u: nat, k: int, rest: Q.Queue)
    returns (dist: map<nat, int>, q: Q.Queue, ghost paths: map<nat, seq<nat>>)
    requires WellFormed(g) && s < |g|
    requires Inv(g, s, dist0, q0.keyOf, paths0)
    requires u in q0.keyOf && k == q0.keyOf[u] && k < INF
    requires forall y | y in q0.keyOf :: k <= q0.keyOf[y]
    requires Q.Valid(rest) && rest.keyOf == q0.keyOf - {u}
    ensures Q.Valid(q) && Inv(g, s, dist, q.keyOf, paths)
    ensures |q.keyOf| == |rest.keyOf|
  {
    dist := dist0[u := k];
    Visit(g, s, dist0, q0.keyOf, paths0, u, k, dist, rest.keyOf);
    SourceFirst(g, s, dist0, q0.keyOf, u, k, dist);
    q, paths := RelaxEdges(g, s, dist, rest, u, paths0);
  }

  /** When every queued key is `INF` (or nothing is queued), the invariant yields `dijkstra`'s promise. */
  lemma Finish(g: Graph, s: nat, dist: map<nat, int>, keys: map<nat, int>, paths: map<nat, seq<nat>>)
    requires WellFormed(g) && s < |g|
    requires Inv(g, s, dist, keys, paths)
    requires forall y | y in keys :: INF <= keys[y]
    ensures s in dist && dist[s] == 0
    ensures forall v | v in dist :: v < |g| && dist[v] < INF && exists p :: IsPath(g, s, v, p) && Weight(g, p) == dist[v]
    ensures NonNegative(g) ==> IsDistanceMap(g, s, dist)
  {
    if NonNegative(g) {
      CutOff(g, s, dist, keys);
    }
    Conclude(g, s, dist, paths);
  }

  /**
   * `dijkstra(source)`: the visited map. Whatever the weights, it maps the
   * source to 0 and every vertex in it to the weight, below `INF`, of some walk
   * from the source; with non-negative weights it is exactly the map of
   * shortest distances of the vertices reachable below `INF`.
   */
  method Dijkstra(g: Graph, s: nat) returns (dist: map<nat, int>)
    requires WellFormed(g)
    requires s < |g|
    ensures s in dist && dist[s] == 0
    ensures forall v | v in dist :: v < |g| && dist[v] < INF && exists p :: IsPath(g, s, v, p) && Weight(g, p) == dist[v]
    ensures NonNegative(g) ==> IsDistanceMap(g, s, dist)
  {
    var q := Seed(|g|, s);
    dist := map[];
    ghost var paths: map<nat, seq<nat>> := map[s := [s]];
    Initial(g, s, q.keyOf, paths);
    while !Q.IsEmpty(q)
      invariant Q.Valid(q) && Inv(g, s, dist, q.keyOf, paths)
      decreases |q.keyOf|
    {
      var done;
      done, dist, q, paths := Step(g, s, dist, q, paths);
      if done {
        break;
      }
    }
    Finish(g, s, dist, q.keyOf, paths);
  }

  /** The visited map's witnesses and lower bounds make it the distance map. */
  lemma Conclude(g: Graph, s: nat, dist: map<nat, int>, paths: map<nat, seq<nat>>)
    requires forall v | v in dist :: v < |g|
    requires forall v | v in dist :: dist[v] < INF && v in paths && IsPath(g, s, v, paths[v]) && Weight(g, paths[v]) == dist[v]
    requires NonNegative(g) ==> LowerBounds(g, s, dist)
    requires NonNegative(g) ==> forall v | 0 <= v < |g| && v !in dist :: Unreachable(g, s, v)
    ensures forall v | v in dist :: v < |g| && dist[v] < INF && exists p :: IsPath(g, s, v, p) && Weight(g, p) == dist[v]
    ensures NonNegative(g) ==> IsDistanceMap(g, s, dist)
  {
    Reached(g, s, dist, paths);
    if NonNegative(g) {
      Settled(g, s, dist);
    }
  }

  lemma Reached(g: Graph, s: nat, dist: map<nat, int>, paths: map<nat, seq<nat>>)
    requires forall v | v in dist :: dist[v] < INF && v in paths && IsPath(g, s, v, paths[v]) && Weight(g, paths[v]) == dist[v]
    ensures forall v | v in dist :: exists p :: IsPath(g, s, v, p) && Weight(g, p) == dist[v]
  {
    forall v | v in dist ensures exists p :: IsPath(g, s, v, p) && Weight(g, p) == dist[v] {
      var p := paths[v];
      assert IsPath(g, s, v, p) && Weight(g, p) == dist[v];
    }
  }

  lemma Settled(g: Graph, s: nat, dist: map<nat, int>)
    requires forall v | v in dist :: v < |g| && dist[v] < INF
    requires forall v | v in dist :: exists p :: IsPath(g, s, v, p) && Weight(g, p) == dist[v]
    requires LowerBounds(g, s, dist)
    ensures forall v | v in dist :: IsShortest(g, s, v, dist[v])
  {
  }
}
