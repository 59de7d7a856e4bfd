/**
 * The directed weighted graph of vertex-centrality/ClosenessCentrality.java
 * (classes Graph, Vertex and Edge), and the shortest-path notions its
 * Dijkstra routine is meant to compute.
 *
 * Vertex `v` is the index `v` of the graph's vertex list. Each vertex's
 * outgoing map (a hash map from target vertex to edge) becomes an
 * association list of edges in insertion order with pairwise distinct
 * targets; Java leaves the hash map's iteration order unspecified, and the
 * model fixes it to insertion order.
 */
module WeightedGraph {
  import opened Wrappers

  /** `Vertex.INFINITY`, `Integer.MAX_VALUE`: the distance of a vertex not (yet) reached. */
  const INF: int := 0x7fff_ffff

  datatype Edge = Edge(to: nat, weight: int)

  /** The outgoing edges of every vertex, indexed by vertex id. */
  type Graph = seq<seq<Edge>>

  predicate DistinctTargets(es: seq<Edge>) {
    forall i, j | 0 <= i < j < |es| :: es[i].to != es[j].to
  }

  /** Every edge ends inside the graph, and no vertex has two edges to the same target. */
  predicate WellFormed(g: Graph) {
    forall v | 0 <= v < |g| :: DistinctTargets(g[v]) && forall i | 0 <= i < |g[v]| :: g[v][i].to < |g|
  }

  predicate NonNegative(g: Graph) {
    forall v, i | 0 <= v < |g| && 0 <= i < |g[v]| :: g[v][i].weight >= 0
  }

  /** The position of the edge to `t` in `es`, if there is one. */
  function IndexOf(es: seq<Edge>, t: nat): (r: Option<nat>)
    ensures r.None? <==> forall i | 0 <= i < |es| :: es[i].to != t
    ensures r.Some? ==> r.value < |es| && es[r.value].to == t
    ensures r.Some? ==> forall i | 0 <= i < r.value :: es[i].to != t
  {
    if |es| == 0 then None
    else if es[0].to == t then Some(0)
    else
      match IndexOf(es[1..], t)
      case None => None
      case Some(i) => Some(i + 1)
  }

  /** The weight of the edge to `t` in `es` (`outgoing.get(t).weight`), if there is one. */
  function Lookup(es: seq<Edge>, t: nat): (r: Option<int>)
    ensures r.None? <==> forall i | 0 <= i < |es| :: es[i].to != t
    ensures DistinctTargets(es) ==> forall i | 0 <= i < |es| && es[i].to == t :: r == Some(es[i].weight)
  {
    match IndexOf(es, t)
    case None => None
    case Some(i) => Some(es[i].weight)
  }

  /** `new Graph(size)`: `size` vertices without edges; a negative size is refused by the list constructor. */
  function NewGraph(size: int): (r: Result<Graph>)
    ensures size < 0 <==> r.Failure?
    ensures r.Success? ==> |r.value| == size && WellFormed(r.value)
    ensures r.Success? ==> forall v, t | 0 <= v < |r.value| :: Lookup(r.value[v], t).None?
  {
    if size < 0 then Failure(IllegalArgument)
    else Success(seq(size, _ => []))
  }

  /** `outgoing.put(to, edge)` on one association list: replace in place, or append. */
  function Put(es: seq<Edge>, to: nat, weight: int): (r: seq<Edge>)
    ensures DistinctTargets(es) ==> DistinctTargets(r)
    ensures Lookup(r, to) == Some(weight)
    ensures forall t | t != to :: Lookup(r, t) == Lookup(es, t)
    ensures forall i | 0 <= i < |r| :: r[i].to == to || r[i] in es
  {
    match IndexOf(es, to)
    case None =>
      var r := es + [Edge(to, weight)];
      LookupAppend(es, Edge(to, weight));
      r
    case Some(i) =>
      var r := es[i := Edge(to, weight)];
      LookupUpdate(es, i, weight);
      r
  }

  lemma {:induction false} LookupAppend(es: seq<Edge>, e: Edge)
    ensures Lookup(es + [e], e.to) == (if Lookup(es, e.to).Some? then Lookup(es, e.to) else Some(e.weight))
    ensures forall t | t != e.to :: Lookup(es + [e], t) == Lookup(es, t)
  {
    forall t ensures IndexOf(es + [e], t) == (if IndexOf(es, t).Some? then IndexOf(es, t) else if e.to == t then Some(|es|) else None) {
      IndexOfAppend(es, e, t);
    }
  }

  lemma {:induction false} IndexOfAppend(es: seq<Edge>, e: Edge, t: nat)
    ensures IndexOf(es + [e], t) == (if IndexOf(es, t).Some? then IndexOf(es, t) else if e.to == t then Some(|es|) else None)
  {
    if |es| > 0 {
      assert (es + [e])[1..] == es[1..] + [e];
      IndexOfAppend(es[1..], e, t);
    }
  }

  lemma {:induction false} LookupUpdate(es: seq<Edge>, i: nat, weight: int)
    requires i < |es|
    requires IndexOf(es, es[i].to) == Some(i)
    ensures Lookup(es[i := Edge(es[i].to, weight)], es[i].to) == Some(weight)
    ensures forall t | t != es[i].to :: Lookup(es[i := Edge(es[i].to, weight)], t) == Lookup(es, t)
  {
    forall t ensures IndexOf(es[i := Edge(es[i].to, weight)], t) == IndexOf(es, t) {
      IndexOfUpdate(es, i, weight, t);
    }
  }

  lemma {:induction false} IndexOfUpdate(es: seq<Edge>, i: nat, weight: int, t: nat)
    requires i < |es|
    ensures IndexOf(es[i := Edge(es[i].to, weight)], t) == IndexOf(es, t)
  {
    if i > 0 {
      assert es[i := Edge(es[i].to, weight)][1..] == es[1..][i - 1 := Edge(es[i].to, weight)];
      IndexOfUpdate(es[1..], i - 1, weight, t);
    }
  }

  /**
   * `addEdge(from, to, weight)`: both ids must index the vertex list (otherwise
   * `List.get` throws); an existing edge to the same target is replaced.
   */
  function AddEdge(g: Graph, from: int, to: int, weight: int): (r: Result<Graph>)
    requires WellFormed(g)
    ensures r.Failure? <==> !(0 <= from < |g| && 0 <= to < |g|)
    ensures r.Success? ==> WellFormed(r.value) && |r.value| == |g|
    ensures r.Success? ==> Lookup(r.value[from], to) == Some(weight)
    ensures r.Success? ==> forall t | t != to :: Lookup(r.value[from], t) == Lookup(g[from], t)
    ensures r.Success? ==> forall v | 0 <= v < |g| && v != from :: r.value[v] == g[v]
  {
    if !(0 <= from < |g| && 0 <= to < |g|) then Failure(IndexOutOfBounds)
    else
      var es := Put(g[from], to, weight);
      var r := g[from := es];
      assert forall i | 0 <= i < |es| :: es[i].to < |g| by {
        forall i | 0 <= i < |es| ensures es[i].to < |g| {
          var e := es[i];
          assert e.to == to || e in g[from];
        }
      }
      Success(r)
  }

  /** `p` is a walk in `g` from `s` to `v` along existing edges (vertices may repeat). */
  ghost predicate IsPath(g: Graph, s: nat, v: nat, p: seq<nat>) {
    && |p| > 0 && p[0] == s && p[|p| - 1] == v
    && (forall i | 0 <= i < |p| :: p[i] < |g|)
    && (forall i | 0 <= i < |p| - 1 :: Lookup(g[p[i]], p[i + 1]).Some?)
  }

  /** The total weight of a walk: the sum of its edges' weights. */
  ghost function Weight(g: Graph, p: seq<nat>): int
    requires forall i | 0 <= i < |p| :: p[i] < |g|
    requires forall i | 0 <= i < |p| - 1 :: Lookup(g[p[i]], p[i + 1]).Some?
  {
    if |p| <= 1 then 0
    else Weight(g, p[..|p| - 1]) + Lookup(g[p[|p| - 2]], p[|p| - 1]).value
  }

  /** Extending a walk to `v` by an edge `v -> t` of weight `w` gives a walk to `t`, heavier by `w`. */
  lemma Extend(g: Graph, s: nat, v: nat, p: seq<nat>, t: nat, w: int)
    requires IsPath(g, s, v, p)
    requires t < |g| && Lookup(g[v], t) == Some(w)
    ensures IsPath(g, s, t, p + [t])
    ensures Weight(g, p + [t]) == Weight(g, p) + w
  {
    assert (p + [t])[..|p|] == p;
  }

  /** A walk of two or more vertices is a shorter walk followed by one edge. */
  lemma Split(g: Graph, s: nat, v: nat, p: seq<nat>)
    requires IsPath(g, s, v, p) && |p| > 1
    ensures IsPath(g, s, p[|p| - 2], p[..|p| - 1])
    ensures Lookup(g[p[|p| - 2]], v).Some?
    ensures Weight(g, p) == Weight(g, p[..|p| - 1]) + Lookup(g[p[|p| - 2]], v).value
  {
  }

  /** With non-negative weights no walk weighs less than zero. */
  lemma {:induction false} WeightNonNegative(g: Graph, s: nat, v: nat, p: seq<nat>)
    requires NonNegative(g)
    requires IsPath(g, s, v, p)
    ensures Weight(g, p) >= 0
    decreases |p|
  {
    if |p| > 1 {
      var u := p[|p| - 2];
      Split(g, s, v, p);
      WeightNonNegative(g, s, u, p[..|p| - 1]);
      var i := IndexOf(g[u], v).value;
      assert g[u][i].weight >= 0;
    }
  }

  /** `d` is the least weight of a walk from `s` to `v`. */
  ghost predicate IsShortest(g: Graph, s: nat, v: nat, d: int) {
    && (exists p :: IsPath(g, s, v, p) && Weight(g, p) == d)
    && (forall p | IsPath(g, s, v, p) :: d <= Weight(g, p))
  }

  /** No walk from `s` reaches `v` below the `INF` sentinel. */
  ghost predicate Unreachable(g: Graph, s: nat, v: nat) {
    forall p | IsPath(g, s, v, p) :: Weight(g, p) >= INF
  }

  /**
   * `dist` is what the Dijkstra routine promises: it holds exactly the
   * vertices reachable from `s` below `INF`, each with its shortest distance.
   */
  ghost predicate IsDistanceMap(g: Graph, s: nat, dist: map<nat, int>) {
    && (forall v | v in dist :: v < |g| && dist[v] < INF && IsShortest(g, s, v, dist[v]))
    && (forall v | 0 <= v < |g| && v !in dist :: Unreachable(g, s, v))
  }

  /** There is one distance map per source: any two agree key by key and value by value. */
  lemma DistanceMapUnique(g: Graph, s: nat, d1: map<nat, int>, d2: map<nat, int>)
    requires IsDistanceMap(g, s, d1) && IsDistanceMap(g, s, d2)
    ensures d1 == d2
  {
    forall v | v in d1 ensures v in d2 && d2[v] == d1[v] {
      ShortestAgrees(g, s, v, d1, d2);
    }
    forall v | v in d2 ensures v in d1 {
      ShortestAgrees(g, s, v, d2, d1);
    }
  }

  lemma ShortestAgrees(g: Graph, s: nat, v: nat, d1: map<nat, int>, d2: map<nat, int>)
    requires IsDistanceMap(g, s, d1) && IsDistanceMap(g, s, d2)
    requires v in d1
    ensures v in d2 && d2[v] == d1[v]
  {
    var x := d1[v];
    var p :| IsPath(g, s, v, p) && Weight(g, p) == x;
    assert v < |g|;
    assert v in d2;
    var y := d2[v];
    var p2 :| IsPath(g, s, v, p2) && Weight(g, p2) == y;
    assert x <= Weight(g, p2);
    assert y <= Weight(g, p);
  }
}
