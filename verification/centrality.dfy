/**
 * `Graph.getMostInfluentialVertex` and `Vertex.compareTo` of
 * vertex-centrality/ClosenessCentrality.java: the closeness centrality of
 * every vertex, and the vertex ranked first by it.
 *
 * For every source the routine runs Dijkstra and adds `1.0 / d` to the sum of
 * every target reached at distance `d`, skipping the source itself; each sum
 * is then scaled by `n - 1`. Java's doubles become exact reals extended with
 * the two special values this computation can meet: positive infinity (a
 * distance of 0 contributes `1.0 / 0`) and NaN (infinity times 0). They are
 * ordered as `Double.compare` orders them.
 */
module Centrality {
  import opened Wrappers
  import opened WeightedGraph
  import opened ShortestPaths

  datatype Score = Finite(value: real) | PosInfinity | NaN

  /** Double addition on the values that occur here: infinity absorbs finite values, NaN absorbs everything. */
  function Plus(a: Score, b: Score): Score {
    if a.NaN? || b.NaN? then NaN
    else if a.PosInfinity? || b.PosInfinity? then PosInfinity
    else Finite(a.value + b.value)
  }

  /** Multiplication by the vertex count less one (never negative): infinity times 0 is NaN. */
  function Scale(a: Score, k: nat): Score {
    match a
    case Finite(x) => Finite(x * k as real)
    case PosInfinity => if k == 0 then NaN else PosInfinity
    case NaN => NaN
  }

  /** `1.0 / d` for an int distance `d`: dividing by zero gives positive infinity. */
  function Contribution(d: int): Score {
    if d == 0 then PosInfinity else Finite(1.0 / d as real)
  }

  /** What the run from `src` with visited map `dist` adds to the sum of `t`. */
  function Contrib(dist: map<nat, int>, src: nat, t: nat): Score {
    if t in dist && t != src && dist[t] != INF then Contribution(dist[t]) else Finite(0.0)
  }

  /** The centrality sum of `t` over the runs from sources `0 .. |runs| - 1`, added in source order. */
  function SumOver(runs: seq<map<nat, int>>, t: nat): Score
    decreases |runs|
  {
    if |runs| == 0 then Finite(0.0)
    else Plus(SumOver(runs[..|runs| - 1], t), Contrib(runs[|runs| - 1], |runs| - 1, t))
  }

  /** The centrality of each of the `n` vertices, given the runs from every source. */
  function Scores(runs: seq<map<nat, int>>, n: nat): (r: seq<Score>)
    requires n > 0
    ensures |r| == n
  {
    var k: nat := n - 1;
    seq(n, t requires 0 <= t < n => Scale(SumOver(runs, t), k))
  }

  /** One distance map per source, each exactly the shortest distances from that source. */
  ghost predicate DistanceTables(g: Graph, runs: seq<map<nat, int>>) {
    |runs| == |g| && forall src | 0 <= src < |g| :: IsDistanceMap(g, src, runs[src])
  }

  /** The rank of a value in `Double.compare`'s order: finite values, then infinity, then NaN. */
  function Rank(a: Score): nat {
    match a
    case Finite(_) => 0
    case PosInfinity => 1
    case NaN => 2
  }

  /** `a` comes strictly before `b` in `Double.compare`'s total order. */
  predicate Below(a: Score, b: Score) {
    if a.Finite? && b.Finite? then a.value < b.value else Rank(a) < Rank(b)
  }

  /** `Double.compare(a, b)`: negative, zero or positive as `a` is below, equal to or above `b`. */
  function DoubleCompare(a: Score, b: Score): (r: int)
    ensures r == 0 <==> a == b
    ensures r < 0 <==> Below(a, b)
    ensures r > 0 <==> Below(b, a)
  {
    if Rank(a) != Rank(b) then (if Rank(a) < Rank(b) then -1 else 1)
    else if a.Finite? then (if a.value < b.value then -1 else if a.value > b.value then 1 else 0)
    else 0
  }

  /**
   * `Vertex.compareTo`: vertex `a` (centrality `ca`) against vertex `b`
   * (centrality `cb`): the higher centrality comes first, then the smaller id.
   */
  function VertexCompare(ca: Score, a: nat, cb: Score, b: nat): int {
    var cmp := DoubleCompare(cb, ca);
    if cmp != 0 then cmp else IntCompare(a, b)
  }

  /** `compareTo` is a total order on (centrality, id) pairs: antisymmetric, only equal pairs tie, and transitive. */
  lemma VertexCompareTotal(ca: Score, a: nat, cb: Score, b: nat, cc: Score, c: nat)
    ensures VertexCompare(ca, a, cb, b) < 0 <==> VertexCompare(cb, b, ca, a) > 0
    ensures VertexCompare(ca, a, cb, b) == 0 <==> ca == cb && a == b
    ensures VertexCompare(ca, a, cb, b) <= 0 && VertexCompare(cb, b, cc, c) <= 0 ==> VertexCompare(ca, a, cc, c) <= 0
  {
  }

  /** `best` has the highest centrality, and the smallest id among the vertices sharing it. */
  predicate IsBest(scores: seq<Score>, best: nat) {
    && best < |scores|
    && forall v | 0 <= v < |scores| :: !Below(scores[best], scores[v]) && (scores[v] == scores[best] ==> best <= v)
  }

  /** There is only one best vertex. */
  lemma {:induction false} BestUnique(scores: seq<Score>, a: nat, b: nat)
    requires IsBest(scores, a) && IsBest(scores, b)
    ensures a == b
  {
    assert !Below(scores[a], scores[b]) && !Below(scores[b], scores[a]);
    assert DoubleCompare(scores[a], scores[b]) == 0;
    assert a <= b && b <= a;
  }

  /**
   * The selection loop of `getMostInfluentialVertex`: starting from vertex 0,
   * every vertex that `compareTo` ranks before the current best replaces it.
   */
  method SelectBest(scores: seq<Score>) returns (best: nat)
    requires |scores| > 0
    ensures IsBest(scores, best)
  {
    best := 0;
    var v := 0;
    while v < |scores|
      invariant v <= |scores| && best < |scores|
      invariant forall u | 0 <= u < v :: VertexCompare(scores[best], best, scores[u], u) <= 0
    {
      if VertexCompare(scores[best], best, scores[v], v) > 0 {
        forall u | 0 <= u < v ensures VertexCompare(scores[v], v, scores[u], u) <= 0 {
          VertexCompareTotal(scores[v], v, scores[best], best, scores[u], u);
        }
        best := v;
      }
      v := v + 1;
    }
    forall u | 0 <= u < |scores| ensures !Below(scores[best], scores[u]) && (scores[u] == scores[best] ==> best <= u) {
      assert VertexCompare(scores[best], best, scores[u], u) <= 0;
    }
  }

  /** The inner loop: the run from `src` adds its contribution to every vertex's sum. */
  method AddRun(sums: seq<Score>, dist: map<nat, int>, src: nat) returns (r: seq<Score>)
    ensures |r| == |sums|
    ensures forall t | 0 <= t < |sums| :: r[t] == Plus(sums[t], Contrib(dist, src, t))
  {
    r := sums;
    var t := 0;
    while t < |sums|
      invariant t <= |sums| && |r| == |sums|
      invariant forall u | 0 <= u < t :: r[u] == Plus(sums[u], Contrib(dist, src, u))
      invariant forall u | t <= u < |sums| :: r[u] == sums[u]
    {
      if t in dist && t != src && dist[t] != INF {
        r := r[t := Plus(r[t], Contribution(dist[t]))];
      } else {
        PlusZero(r[t]);
      }
      t := t + 1;
    }
  }

  lemma PlusZero(a: Score)
    ensures Plus(a, Finite(0.0)) == a
  {
  }

  /**
   * `getMostInfluentialVertex`: the centrality of every vertex (the `centrality`
   * fields it sets) and the id of the vertex ranked first. The scores are the
   * sums built from this model's Dijkstra runs; with non-negative weights they
   * are the closeness centralities over the true shortest distances. A graph
   * without vertices fails, as `vertices.get(0)` does.
   */
  method MostInfluentialVertex(g: Graph) returns (best: Result<nat>, scores: seq<Score>, ghost runs: seq<map<nat, int>>)
    requires WellFormed(g)
    ensures |scores| == |g| && |runs| == |g|
    ensures |g| > 0 ==> scores == Scores(runs, |g|)
    ensures NonNegative(g) ==> DistanceTables(g, runs)
    ensures best.Failure? <==> |g| == 0
    ensures best.Success? ==> IsBest(scores, best.value)
    ensures forall v | 0 <= v < |g| :: scores[v] != NaN
    ensures NonNegative(g) ==> forall v | 0 <= v < |g| :: NonNeg(scores[v])
    ensures NonNegative(g) && |g| > 0 ==> forall other | DistanceTables(g, other) :: scores == Scores(other, |g|)
  {
    var n := |g|;
    var sums;
    sums, runs := CentralitySums(g);
    scores := seq(n, v requires 0 <= v < n => Scale(sums[v], if n > 0 then n - 1 else 0));
    if n == 0 {
      return Failure(IndexOutOfBounds), scores, runs;
    }
    assert scores == Scores(runs, n);
    NeverNaN(runs, n);
    var b := SelectBest(scores);
    best := Success(b);
    if NonNegative(g) {
      ScoresNonNegative(g, runs);
      forall other | DistanceTables(g, other) ensures scores == Scores(other, n) {
        SameRuns(g, runs, other);
      }
    }
  }

  /**
   * The first loop of `getMostInfluentialVertex`: one Dijkstra run per source
   * (`runs`), each adding its contributions to the sums of the vertices it
   * reached. With non-negative weights every run is the source's distance map.
   */
  method CentralitySums(g: Graph) returns (sums: seq<Score>, ghost runs: seq<map<nat, int>>)
    requires WellFormed(g)
    ensures |runs| == |g| && |sums| == |g|
    ensures forall i | 0 <= i < |g| :: NonNegative(g) ==> IsDistanceMap(g, i, runs[i])
    ensures forall t | 0 <= t < |g| :: sums[t] == SumOver(runs, t)
  {
    var n := |g|;
    sums := seq(n, _ => Finite(0.0));
    runs := [];
    var src := 0;
    while src < n
      invariant src <= n && |runs| == src && |sums| == n
      invariant Tables(g, runs) && Summed(sums, runs)
    {
      var dist := Dijkstra(g, src);
      var sums' := AddRun(sums, dist, src);
      SumsStep(runs, dist, sums, sums');
      TablesStep(g, runs, dist);
      runs, sums := runs + [dist], sums';
      src := src + 1;
    }
  }

  /** Each run so far is its source's distance map, when the weights are non-negative. */
  ghost predicate Tables(g: Graph, runs: seq<map<nat, int>>) {
    forall i | 0 <= i < |runs| :: NonNegative(g) ==> IsDistanceMap(g, i, runs[i])
  }

  /** Each sum holds the contributions of the runs so far. */
  ghost predicate Summed(sums: seq<Score>, runs: seq<map<nat, int>>) {
    forall t | 0 <= t < |sums| :: sums[t] == SumOver(runs, t)
  }

  lemma TablesStep(g: Graph, runs: seq<map<nat, int>>, dist: map<nat, int>)
    requires Tables(g, runs)
    requires NonNegative(g) ==> IsDistanceMap(g, |runs|, dist)
    ensures Tables(g, runs + [dist])
  {
    forall i | 0 <= i < |runs| + 1 ensures NonNegative(g) ==> IsDistanceMap(g, i, (runs + [dist])[i]) {
      if i < |runs| {
        assert (runs + [dist])[i] == runs[i];
      }
    }
  }

  /** Adding the next run's contributions extends every sum by that run. */
  lemma SumsStep(runs: seq<map<nat, int>>, dist: map<nat, int>, sums: seq<Score>, sums': seq<Score>)
    requires Summed(sums, runs) && |sums'| == |sums|
    requires forall t | 0 <= t < |sums| :: sums'[t] == Plus(sums[t], Contrib(dist, |runs|, t))
    ensures Summed(sums', runs + [dist])
  {
    assert (runs + [dist])[..|runs|] == runs;
  }

  /** Any two complete sets of distance tables are the same. */
  lemma SameRuns(g: Graph, a: seq<map<nat, int>>, b: seq<map<nat, int>>)
    requires |a| == |g| && forall i | 0 <= i < |g| :: IsDistanceMap(g, i, a[i])
    requires DistanceTables(g, b)
    ensures a == b
  {
    forall i | 0 <= i < |g| ensures a[i] == b[i] {
      DistanceMapUnique(g, i, a[i], b[i]);
    }
  }

  /** A sum is never NaN: every contribution is finite or positive infinity. */
  lemma {:induction false} SumNotNaN(runs: seq<map<nat, int>>, t: nat)
    ensures SumOver(runs, t) != NaN
    decreases |runs|
  {
    if |runs| > 0 {
      SumNotNaN(runs[..|runs| - 1], t);
      assert Contrib(runs[|runs| - 1], |runs| - 1, t) != NaN;
    }
  }

  /**
   * No score is NaN: a sum can be infinite only through a distance to a
   * vertex other than the source, and with one vertex there is none, so the
   * factor `n - 1` is 0 only when every sum is 0.
   */
  lemma NeverNaN(runs: seq<map<nat, int>>, n: nat)
    requires n > 0 && |runs| == n
    ensures forall v | 0 <= v < n :: Scores(runs, n)[v] != NaN
  {
    forall v | 0 <= v < n ensures Scores(runs, n)[v] != NaN {
      var s := SumOver(runs, v);
      SumNotNaN(runs, v);
      assert Scores(runs, n)[v] == Scale(s, n - 1);
      if n == 1 {
        assert v == 0 && runs[..0] == [];
        assert Contrib(runs[0], 0, v) == Finite(0.0);
        assert s == Plus(Finite(0.0), Finite(0.0));
      }
    }
  }

  /** Only other sources reaching a vertex below `INF` add to its score: a vertex no other source reaches scores 0. */
  lemma {:induction false} UnreachedScoresZero(g: Graph, runs: seq<map<nat, int>>, v: nat)
    requires DistanceTables(g, runs) && v < |g|
    requires forall src | 0 <= src < |g| && src != v :: Unreachable(g, src, v)
    ensures Scores(runs, |g|)[v] == Finite(0.0)
  {
    UnreachedSumZero(g, runs, |g|, v);
    assert runs[..|g|] == runs;
  }

  lemma {:induction false} UnreachedSumZero(g: Graph, runs: seq<map<nat, int>>, k: nat, v: nat)
    requires DistanceTables(g, runs) && v < |g| && k <= |g|
    requires forall src | 0 <= src < |g| && src != v :: Unreachable(g, src, v)
    ensures SumOver(runs[..k], v) == Finite(0.0)
    decreases k
  {
    if k > 0 {
      var src := k - 1;
      assert runs[..k][..k - 1] == runs[..k - 1];
      UnreachedSumZero(g, runs, k - 1, v);
      if v != src {
        NotReached(g, src, v, runs[src]);
      }
    }
  }

  /** A value that is not NaN and not below zero. */
  predicate NonNeg(a: Score) {
    a.PosInfinity? || (a.Finite? && a.value >= 0.0)
  }

  /** A value above zero: positive infinity or a positive real. */
  predicate Positive(a: Score) {
    a.PosInfinity? || (a.Finite? && a.value > 0.0)
  }

  /**
   * With non-negative weights every score is zero or more, and a vertex
   * scores 0 exactly when no other vertex reaches it below `INF`.
   */
  lemma ScoreZeroIff(g: Graph, runs: seq<map<nat, int>>, v: nat)
    requires NonNegative(g) && DistanceTables(g, runs) && v < |g|
    ensures NonNeg(Scores(runs, |g|)[v])
    ensures Scores(runs, |g|)[v] == Finite(0.0) <==> forall src | 0 <= src < |g| && src != v :: Unreachable(g, src, v)
  {
    ScoresNonNegative(g, runs);
    if forall src | 0 <= src < |g| && src != v :: Unreachable(g, src, v) {
      UnreachedScoresZero(g, runs, v);
    } else {
      var src :| 0 <= src < |g| && src != v && !Unreachable(g, src, v);
      ReachedScoresPositive(g, runs, v, src);
    }
  }

  /** With non-negative weights no score is NaN or negative. */
  lemma ScoresNonNegative(g: Graph, runs: seq<map<nat, int>>)
    requires NonNegative(g) && DistanceTables(g, runs) && |g| > 0
    ensures forall v | 0 <= v < |g| :: NonNeg(Scores(runs, |g|)[v])
  {
    NeverNaN(runs, |g|);
    assert runs[..|g|] == runs;
    forall v | 0 <= v < |g| ensures NonNeg(Scores(runs, |g|)[v]) {
      var s := SumOver(runs, v);
      SumNonNeg(g, runs, |g|, v);
      assert Scores(runs, |g|)[v] == Scale(s, |g| - 1);
      ScaleNonNeg(s, |g| - 1);
    }
  }

  /** Scaling a value that is zero or more gives zero or more, unless it gives NaN. */
  lemma ScaleNonNeg(a: Score, k: nat)
    requires NonNeg(a)
    ensures Scale(a, k) != NaN ==> NonNeg(Scale(a, k))
  {
    if a.Finite? {
      assert a.value * k as real >= 0.0 by {
        assert k as real >= 0.0;
      }
    }
  }

  /**
   * With non-negative weights, a vertex that some other vertex reaches below
   * `INF` gets a positive or infinite score.
   */
  lemma ReachedScoresPositive(g: Graph, runs: seq<map<nat, int>>, v: nat, src: nat)
    requires NonNegative(g) && DistanceTables(g, runs) && v < |g|
    requires src < |g| && src != v && !Unreachable(g, src, v)
    ensures Positive(Scores(runs, |g|)[v])
  {
    var s := SumOver(runs, v);
    SumPositive(g, runs, |g|, v, src);
    assert runs[..|g|] == runs;
    assert Scores(runs, |g|)[v] == Scale(s, |g| - 1);
    ScalePositive(s, |g| - 1);
  }

  /** Scaling a positive value by a positive count keeps it positive. */
  lemma ScalePositive(a: Score, k: nat)
    requires Positive(a) && k > 0
    ensures Positive(Scale(a, k))
  {
    if a.Finite? {
      assert a.value * k as real > 0.0 by {
        assert k as real >= 1.0;
        assert a.value * k as real >= a.value * 1.0;
      }
    }
  }

  /** With non-negative weights each run adds zero or more to a sum. */
  lemma ContribNonNeg(g: Graph, runs: seq<map<nat, int>>, src: nat, t: nat)
    requires NonNegative(g) && DistanceTables(g, runs) && src < |g|
    ensures NonNeg(Contrib(runs[src], src, t))
  {
    var dist := runs[src];
    if t in dist {
      DistanceNonNeg(g, src, dist, t);
    }
  }

  /** With non-negative weights a run that reaches `t` from another source adds a positive amount or infinity. */
  lemma ContribPositive(g: Graph, runs: seq<map<nat, int>>, src: nat, t: nat)
    requires NonNegative(g) && DistanceTables(g, runs) && src < |g| && t < |g|
    requires src != t && !Unreachable(g, src, t)
    ensures Positive(Contrib(runs[src], src, t))
  {
    var dist := runs[src];
    assert t in dist;
    DistanceNonNeg(g, src, dist, t);
  }

  /** With non-negative weights every recorded distance is zero or more and below `INF`. */
  lemma DistanceNonNeg(g: Graph, src: nat, dist: map<nat, int>, t: nat)
    requires NonNegative(g) && IsDistanceMap(g, src, dist) && t in dist
    ensures 0 <= dist[t] < INF
  {
    var d := dist[t];
    assert IsShortest(g, src, t, d);
    var p :| IsPath(g, src, t, p) && Weight(g, p) == d;
    WeightNonNegative(g, src, t, p);
  }

  lemma {:induction false} SumNonNeg(g: Graph, runs: seq<map<nat, int>>, k: nat, t: nat)
    requires NonNegative(g) && DistanceTables(g, runs) && k <= |g|
    ensures NonNeg(SumOver(runs[..k], t))
    decreases k
  {
    if k > 0 {
      assert runs[..k][..k - 1] == runs[..k - 1];
      SumNonNeg(g, runs, k - 1, t);
      ContribNonNeg(g, runs, k - 1, t);
    }
  }

  lemma {:induction false} SumPositive(g: Graph, runs: seq<map<nat, int>>, k: nat, t: nat, src: nat)
    requires NonNegative(g) && DistanceTables(g, runs) && k <= |g| && t < |g|
    requires src < k && src != t && !Unreachable(g, src, t)
    ensures Positive(SumOver(runs[..k], t))
    decreases k
  {
    assert runs[..k][..k - 1] == runs[..k - 1];
    if src == k - 1 {
      SumNonNeg(g, runs, k - 1, t);
      ContribPositive(g, runs, src, t);
    } else {
      SumPositive(g, runs, k - 1, t, src);
      ContribNonNeg(g, runs, k - 1, t);
    }
  }

  /** A vertex unreachable below `INF` is not in the distance map. */
  lemma NotReached(g: Graph, src: nat, v: nat, dist: map<nat, int>)
    requires IsDistanceMap(g, src, dist)
    requires Unreachable(g, src, v)
    ensures v !in dist
  {
    if v in dist {
      assert false;
    }
  }
}
