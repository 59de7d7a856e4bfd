/**
 * `CourseGraph` of topological-sorting/KahnTopologicalCheck.java: courses
 * `0 .. size - 1`, prerequisite edges kept as adjacency lists beside an
 * in-degree array, and Kahn's breadth-first check that every course can be
 * completed, which holds exactly when the prerequisite graph has no directed
 * cycle.
 */
module KahnCheck {
  import opened Wrappers

  /**
   * The graph's state: `adj[u]` lists, in insertion order and with repeats,
   * the courses that have `u` as a prerequisite; `inDegree[c]` is the
   * counter kept beside it. The number of courses is `|adj|`.
   */
  datatype CourseGraph = CourseGraph(adj: seq<seq<int>>, inDegree: seq<int>)

  /** One `addPrerequisite(prereq, course)` call: the edge `prereq -> course`. */
  datatype Prereq = Prereq(prereq: int, course: int)

  /** The number of times `v` occurs in `s`. */
  function Occ(s: seq<int>, v: int): nat
    decreases |s|
  {
    if |s| == 0 then 0 else (if s[0] == v then 1 else 0) + Occ(s[1..], v)
  }

  /**
   * The edges into `v` whose source is below `m` and not yet visited,
   * counted with repeats.
   */
  function Incoming(adj: seq<seq<int>>, visited: seq<bool>, v: int, m: nat): nat
    requires m <= |adj| == |visited|
  {
    if m == 0 then 0
    else Incoming(adj, visited, v, m - 1) + (if visited[m - 1] then 0 else Occ(adj[m - 1], v))
  }

  /** No course visited yet. */
  function NoneVisited(n: nat): (r: seq<bool>)
    ensures |r| == n && forall v | 0 <= v < n :: !r[v]
  {
    seq(n, _ => false)
  }

  /** Every listed course is a course. */
  predicate InRange(adj: seq<seq<int>>) {
    forall u, k | 0 <= u < |adj| && 0 <= k < |adj[u]| :: 0 <= adj[u][k] < |adj|
  }

  /**
   * A state that `CourseGraph(size)` and `addPrerequisite` reach: each
   * in-degree counts the listed edges into its course.
   */
  predicate Consistent(g: CourseGraph) {
    && |g.adj| == |g.inDegree|
    && InRange(g.adj)
    && forall v | 0 <= v < |g.adj| :: g.inDegree[v] == Incoming(g.adj, NoneVisited(|g.adj|), v, |g.adj|)
  }

  /** `u` is a prerequisite of `v`. */
  predicate Edge(adj: seq<seq<int>>, u: int, v: int) {
    0 <= u < |adj| && v in adj[u]
  }

  /** `c` walks the prerequisite edges and ends where it starts. */
  predicate IsCycle(adj: seq<seq<int>>, c: seq<int>) {
    && |c| >= 2 && c[0] == c[|c| - 1]
    && forall i | 0 <= i < |c| - 1 :: Edge(adj, c[i], c[i + 1])
  }

  ghost predicate Acyclic(adj: seq<seq<int>>) {
    forall c :: !IsCycle(adj, c)
  }

  /**
   * `CourseGraph(size)`: `size` courses, no prerequisites, every in-degree
   * zero. A negative size fails, as `new int[size]` does.
   */
  function NewCourseGraph(size: int): (r: Result<CourseGraph>)
    ensures r.Failure? <==> size < 0
    ensures r.Success? ==> |r.value.adj| == size && Consistent(r.value)
    ensures r.Success? ==> forall c | 0 <= c < size :: r.value.adj[c] == [] && r.value.inDegree[c] == 0
  {
    if size < 0 then Failure(NegativeArraySize)
    else
      var g := CourseGraph(seq(size, _ => []), seq(size, _ => 0));
      NoEdges(g.adj, NoneVisited(size), size);
      Success(g)
  }

  /**
   * `addPrerequisite(prereq, course)`: `course` joins the end of `prereq`'s
   * list and its in-degree grows by one; a course number outside the graph
   * fails with nothing else changed.
   */
  function AddPrerequisite(g: CourseGraph, prereq: int, course: int): (r: Result<CourseGraph>)
    requires |g.adj| == |g.inDegree|
    ensures r.Failure? <==> !(0 <= prereq < |g.adj|) || !(0 <= course < |g.adj|)
    ensures r.Success? ==>
      && |r.value.adj| == |r.value.inDegree| == |g.adj|
      && r.value.adj[prereq] == g.adj[prereq] + [course]
      && r.value.inDegree[course] == g.inDegree[course] + 1
      && (forall u | 0 <= u < |g.adj| && u != prereq :: r.value.adj[u] == g.adj[u])
      && (forall c | 0 <= c < |g.adj| && c != course :: r.value.inDegree[c] == g.inDegree[c])
  {
    if !(0 <= prereq < |g.adj|) || !(0 <= course < |g.adj|) then Failure(IndexOutOfBounds)
    else Success(CourseGraph(g.adj[prereq := g.adj[prereq] + [course]],
                             g.inDegree[course := g.inDegree[course] + 1]))
  }

  /** `addPrerequisite` keeps every in-degree equal to the number of edges into its course. */
  lemma AddKeepsConsistent(g: CourseGraph, prereq: int, course: int)
    requires Consistent(g)
    requires AddPrerequisite(g, prereq, course).Success?
    ensures Consistent(AddPrerequisite(g, prereq, course).value)
  {
    var r := AddPrerequisite(g, prereq, course).value;
    var n := |g.adj|;
    forall v | 0 <= v < n
      ensures r.inDegree[v] == Incoming(r.adj, NoneVisited(n), v, n)
    {
      IncomingAppend(g.adj, NoneVisited(n), prereq, course, v, n);
    }
  }

  /** `addPrerequisite` called once per edge, in order; the first bad edge fails. */
  function AddAll(g: CourseGraph, es: seq<Prereq>): (r: Result<CourseGraph>)
    requires |g.adj| == |g.inDegree|
    ensures r.Success? ==> |r.value.adj| == |r.value.inDegree| == |g.adj|
    decreases |es|
  {
    if |es| == 0 then Success(g)
    else
      match AddAll(g, es[..|es| - 1])
      case Failure(e) => Failure(e)
      case Success(h) => AddPrerequisite(h, es[|es| - 1].prereq, es[|es| - 1].course)
  }

  /** The number of edges of `es` that end in `c`. */
  function Into(es: seq<Prereq>, c: int): nat
    decreases |es|
  {
    if |es| == 0 then 0 else Into(es[..|es| - 1], c) + (if es[|es| - 1].course == c then 1 else 0)
  }

  /** The courses that the edges of `es` leaving `u` point at, in order. */
  function OutOf(es: seq<Prereq>, u: int): seq<int>
    decreases |es|
  {
    if |es| == 0 then []
    else OutOf(es[..|es| - 1], u) + (if es[|es| - 1].prereq == u then [es[|es| - 1].course] else [])
  }

  /** Every edge names two courses of a graph of `n` courses. */
  predicate EdgesInRange(es: seq<Prereq>, n: nat) {
    forall i | 0 <= i < |es| :: 0 <= es[i].prereq < n && 0 <= es[i].course < n
  }

  /** A run of `addPrerequisite` calls fails exactly when some edge names a course outside the graph. */
  lemma {:induction false} AddAllFails(g: CourseGraph, es: seq<Prereq>)
    requires |g.adj| == |g.inDegree|
    ensures AddAll(g, es).Success? <==> EdgesInRange(es, |g.adj|)
    decreases |es|
  {
    if |es| > 0 {
      var es' := es[..|es| - 1];
      AddAllFails(g, es');
      assert EdgesInRange(es, |g.adj|) <==> EdgesInRange(es', |g.adj|) && EdgesInRange([es[|es| - 1]], |g.adj|) by {
        assert es == es' + [es[|es| - 1]];
      }
    }
  }

  /**
   * After a successful run of `addPrerequisite` calls each in-degree has
   * grown by the number of added edges into its course, duplicates included,
   * each list has gained its course's edges in order, and the state stays
   * consistent.
   */
  lemma {:induction false} AddAllCounts(g: CourseGraph, es: seq<Prereq>)
    requires Consistent(g)
    requires AddAll(g, es).Success?
    ensures Consistent(AddAll(g, es).value)
    ensures forall c | 0 <= c < |g.adj| ::
      && AddAll(g, es).value.inDegree[c] == g.inDegree[c] + Into(es, c)
      && AddAll(g, es).value.adj[c] == g.adj[c] + OutOf(es, c)
    decreases |es|
  {
    if |es| > 0 {
      var es' := es[..|es| - 1];
      var e := es[|es| - 1];
      var h := AddAll(g, es').value;
      AddAllCounts(g, es');
      AddKeepsConsistent(h, e.prereq, e.course);
      var r := AddAll(g, es).value;
      assert r == AddPrerequisite(h, e.prereq, e.course).value;
      forall c | 0 <= c < |g.adj|
        ensures r.inDegree[c] == g.inDegree[c] + Into(es, c) && r.adj[c] == g.adj[c] + OutOf(es, c)
      {
        if c == e.prereq {
          assert r.adj[c] == h.adj[c] + [e.course];
        }
      }
    }
  }

  /**
   * A fresh graph of `size` courses after a run of `addPrerequisite` calls
   * that all succeed: each in-degree is the number of added edges into its
   * course, and each list holds exactly its course's edges, in order.
   */
  lemma FreshCounts(size: nat, es: seq<Prereq>)
    requires EdgesInRange(es, size)
    ensures AddAll(NewCourseGraph(size).value, es).Success?
    ensures forall c | 0 <= c < size ::
      && AddAll(NewCourseGraph(size).value, es).value.inDegree[c] == Into(es, c)
      && AddAll(NewCourseGraph(size).value, es).value.adj[c] == OutOf(es, c)
  {
    var g := NewCourseGraph(size).value;
    AddAllFails(g, es);
    AddAllCounts(g, es);
  }

  lemma {:induction false} OccAppend(s: seq<int>, x: int, v: int)
    ensures Occ(s + [x], v) == Occ(s, v) + (if x == v then 1 else 0)
    decreases |s|
  {
    if |s| > 0 {
      assert (s + [x])[1..] == s[1..] + [x];
      OccAppend(s[1..], x, v);
    }
  }

  lemma {:induction false} OccIn(s: seq<int>, v: int)
    ensures Occ(s, v) > 0 <==> v in s
    decreases |s|
  {
    if |s| > 0 {
      OccIn(s[1..], v);
      assert v in s <==> s[0] == v || v in s[1..];
    }
  }

  /** With no edges out of the first `m` courses nothing comes in from them. */
  lemma {:induction false} NoEdges(adj: seq<seq<int>>, visited: seq<bool>, m: nat)
    requires m <= |adj| == |visited|
    requires forall u | 0 <= u < m :: adj[u] == []
    ensures forall v :: Incoming(adj, visited, v, m) == 0
  {
    if m > 0 {
      NoEdges(adj, visited, m - 1);
    }
  }

  lemma {:induction false} IncomingAppend(adj: seq<seq<int>>, visited: seq<bool>, p: nat, x: int, v: int, m: nat)
    requires p < |adj| && m <= |adj| == |visited|
    ensures Incoming(adj[p := adj[p] + [x]], visited, v, m)
         == Incoming(adj, visited, v, m) + (if p < m && !visited[p] && x == v then 1 else 0)
  {
    if m > 0 {
      IncomingAppend(adj, visited, p, x, v, m - 1);
      OccAppend(adj[p], x, v);
    }
  }

  /** Visiting `c` takes its edges out of every count. */
  lemma {:induction false} IncomingVisit(adj: seq<seq<int>>, visited: seq<bool>, c: nat, v: int, m: nat)
    requires c < |adj| && m <= |adj| == |visited| && !visited[c]
    ensures Incoming(adj, visited[c := true], v, m) + (if c < m then Occ(adj[c], v) else 0)
         == Incoming(adj, visited, v, m)
  {
    if m > 0 {
      IncomingVisit(adj, visited, c, v, m - 1);
    }
  }

  /** An edge from an unvisited course keeps the count above zero. */
  lemma {:induction false} IncomingPositive(adj: seq<seq<int>>, visited: seq<bool>, u: nat, v: int, m: nat)
    requires m <= |adj| == |visited|
    requires u < m && !visited[u] && v in adj[u]
    ensures Incoming(adj, visited, v, m) > 0
  {
    if u < m - 1 {
      IncomingPositive(adj, visited, u, v, m - 1);
    } else {
      OccIn(adj[u], v);
    }
  }

  /** An unvisited prerequisite of `v`, which a positive count promises. */
  function PredOf(adj: seq<seq<int>>, visited: seq<bool>, v: int, m: nat): (u: nat)
    requires m <= |adj| == |visited|
    requires Incoming(adj, visited, v, m) > 0
    ensures u < m && !visited[u] && v in adj[u]
  {
    if !visited[m - 1] && Occ(adj[m - 1], v) > 0 then
      OccIn(adj[m - 1], v);
      m - 1
    else
      PredOf(adj, visited, v, m - 1)
  }

  /** The number of visited courses. */
  function CountTrue(s: seq<bool>): (r: nat)
    ensures r <= |s|
    decreases |s|
  {
    if |s| == 0 then 0 else CountTrue(s[..|s| - 1]) + (if s[|s| - 1] then 1 else 0)
  }

  lemma {:induction false} CountTrueSet(s: seq<bool>, c: nat)
    requires c < |s| && !s[c]
    ensures CountTrue(s[c := true]) == CountTrue(s) + 1
    decreases |s|
  {
    var t := s[c := true];
    if c < |s| - 1 {
      assert t[..|t| - 1] == s[..|s| - 1][c := true];
      CountTrueSet(s[..|s| - 1], c);
    } else {
      assert t[..|t| - 1] == s[..|s| - 1];
    }
  }

  lemma {:induction false} CountTrueNone(n: nat)
    ensures CountTrue(NoneVisited(n)) == 0
  {
    if n > 0 {
      assert NoneVisited(n)[..n - 1] == NoneVisited(n - 1);
      CountTrueNone(n - 1);
    }
  }

  /** A course not yet visited, when fewer than all are. */
  function Unvisited(s: seq<bool>): (i: nat)
    requires CountTrue(s) < |s|
    ensures i < |s| && !s[i]
    decreases |s|
  {
    if !s[|s| - 1] then |s| - 1 else Unvisited(s[..|s| - 1])
  }

  /** All `n + 1` entries of a walk over `n` courses cannot be distinct. */
  lemma {:induction false} Pigeonhole(s: seq<int>, n: nat)
    requires forall i | 0 <= i < |s| :: 0 <= s[i] < n
    requires Distinct(s)
    ensures |s| <= n
    decreases |s|
  {
    if |s| > 0 {
      var x := s[|s| - 1];
      var t := seq(|s| - 1, i requires 0 <= i < |s| - 1 => if s[i] == n - 1 then x else s[i]);
      forall i | 0 <= i < |t| ensures 0 <= t[i] < n - 1 {
        assert s[i] != x;
      }
      forall i, j | 0 <= i < j < |t| ensures t[i] != t[j] {
        assert s[i] != s[j] && s[i] != x && s[j] != x;
      }
      Pigeonhole(t, n - 1);
    }
  }

  /** Every unvisited course has an unvisited prerequisite. */
  ghost predicate Stuck(adj: seq<seq<int>>, visited: seq<bool>) {
    |visited| == |adj| && forall v | 0 <= v < |adj| && !visited[v] :: Incoming(adj, visited, v, |adj|) > 0
  }

  /** `k` steps backwards along prerequisite edges from `v`, staying among unvisited courses. */
  function Back(adj: seq<seq<int>>, visited: seq<bool>, v: nat, k: nat): (w: seq<int>)
    requires Stuck(adj, visited) && v < |adj| && !visited[v]
    ensures |w| == k + 1 && w[0] == v
    ensures forall i | 0 <= i < |w| :: 0 <= w[i] < |adj| && !visited[w[i]]
    ensures forall i | 0 <= i < k :: Edge(adj, w[i + 1], w[i])
    decreases k
  {
    if k == 0 then [v]
    else
      var u := PredOf(adj, visited, v, |adj|);
      var w := Back(adj, visited, u, k - 1);
      assert forall i | 1 <= i < k :: ([v] + w)[i + 1] == w[i] && ([v] + w)[i] == w[i - 1];
      [v] + w
  }

  /** If Kahn's walk gets stuck before every course is visited, the graph has a cycle. */
  lemma StuckCycle(adj: seq<seq<int>>, visited: seq<bool>, v: nat)
    requires Stuck(adj, visited) && v < |adj| && !visited[v]
    ensures !Acyclic(adj)
  {
    var n := |adj|;
    var w := Back(adj, visited, v, n);
    if Distinct(w) {
      Pigeonhole(w, n);
      assert false;
    }
    var i, j :| 0 <= i < j < |w| && w[i] == w[j];
    var c := seq(j - i + 1, t requires 0 <= t <= j - i => w[j - t]);
    forall t | 0 <= t < |c| - 1 ensures Edge(adj, c[t], c[t + 1]) {
      assert Edge(adj, w[j - t - 1 + 1], w[j - t - 1]);
    }
    assert IsCycle(adj, c);
  }

  /** Every course listed after all its prerequisites: the order Kahn's queue produces. */
  ghost predicate Topo(adj: seq<seq<int>>, order: seq<int>) {
    forall i, u | 0 <= i < |order| && 0 <= u < |adj| && order[i] in adj[u] :: u in order[..i]
  }

  /** The position of `v` in `order`. */
  function IndexOf(order: seq<int>, v: int): (i: nat)
    requires v in order
    ensures i < |order| && order[i] == v && v !in order[..i]
  {
    if order[0] == v then 0 else
      var i := IndexOf(order[1..], v);
      assert order[..i + 1] == [order[0]] + order[1..][..i];
      i + 1
  }

  /** Along a walk in a topological order, positions only grow. */
  lemma {:induction false} WalkRises(adj: seq<seq<int>>, order: seq<int>, c: seq<int>)
    requires InRange(adj) && Topo(adj, order) && Distinct(order)
    requires forall v | 0 <= v < |adj| :: v in order
    requires |c| >= 2 && forall i | 0 <= i < |c| - 1 :: Edge(adj, c[i], c[i + 1])
    ensures c[0] in order && c[|c| - 1] in order
    ensures IndexOf(order, c[0]) < IndexOf(order, c[|c| - 1])
    decreases |c|
  {
    var k := |c| - 1;
    var a, b := c[k - 1], c[k];
    assert Edge(adj, a, b);
    var p :| 0 <= p < |adj[a]| && adj[a][p] == b;
    assert b in order;
    var j := IndexOf(order, b);
    assert a in order[..j];
    var i :| 0 <= i < j && order[i] == a;
    assert IndexOf(order, a) == i by {
      var h := IndexOf(order, a);
      assert order[h] == order[i];
    }
    if k > 1 {
      WalkRises(adj, order, c[..k]);
    }
  }

  /** A graph with a topological order of all its courses has no cycle. */
  lemma OrderedAcyclic(adj: seq<seq<int>>, order: seq<int>)
    requires InRange(adj) && Topo(adj, order) && Distinct(order)
    requires forall v | 0 <= v < |adj| :: v in order
    ensures Acyclic(adj)
  {
    forall c ensures !IsCycle(adj, c) {
      if IsCycle(adj, c) {
        WalkRises(adj, order, c);
      }
    }
  }

  /** The visited flags and the dequeue order agree: each visited course dequeued once. */
  ghost predicate Dequeued(visited: seq<bool>, order: seq<int>) {
    && Distinct(order) && CountTrue(visited) == |order|
    && (forall i | 0 <= i < |order| :: 0 <= order[i] < |visited| && visited[order[i]])
    && (forall v | 0 <= v < |visited| && visited[v] :: v in order)
  }

  /** The queue holds distinct unvisited courses. */
  ghost predicate Queued(queue: seq<int>, visited: seq<bool>) {
    Distinct(queue) && forall i | 0 <= i < |queue| :: 0 <= queue[i] < |visited| && !visited[queue[i]]
  }

  /** A course's counter is zero exactly when it has been visited or queued. */
  ghost predicate ZeroIffReached(inDeg: seq<int>, queue: seq<int>, visited: seq<bool>) {
    |inDeg| == |visited| && forall v | 0 <= v < |visited| :: inDeg[v] == 0 <==> visited[v] || v in queue
  }

  /**
   * The state of `isCompletionPossible`'s outer loop: each counter holds
   * the edges into its course from courses not yet dequeued.
   */
  ghost predicate KahnInv(adj: seq<seq<int>>, inDeg: seq<int>, queue: seq<int>, visited: seq<bool>, order: seq<int>) {
    && |inDeg| == |visited| == |adj| && InRange(adj)
    && Dequeued(visited, order) && Queued(queue, visited) && Topo(adj, order)
    && (forall v | 0 <= v < |adj| :: inDeg[v] == Incoming(adj, visited, v, |adj|))
    && ZeroIffReached(inDeg, queue, visited)
  }

  /**
   * The state of the inner loop over `course`'s dependents, `j` of them
   * done: each counter holds the edges from courses not yet dequeued, plus
   * the edges from `course` still to be released.
   */
  ghost predicate Releasing(adj: seq<seq<int>>, inDeg: seq<int>, queue: seq<int>, visited: seq<bool>, course: nat, j: nat) {
    && |inDeg| == |visited| == |adj| && InRange(adj)
    && course < |adj| && j <= |adj[course]|
    && Queued(queue, visited)
    && Pending(adj, inDeg, visited, adj[course][j..])
    && ZeroIffReached(inDeg, queue, visited)
  }

  /** Each counter holds the edges from courses not yet dequeued plus those in `rest`. */
  ghost predicate Pending(adj: seq<seq<int>>, inDeg: seq<int>, visited: seq<bool>, rest: seq<int>) {
    && |inDeg| == |visited| == |adj|
    && forall v | 0 <= v < |adj| :: inDeg[v] == Incoming(adj, visited, v, |adj|) + Occ(rest, v)
  }

  /**
   * `isCompletionPossible`: the courses with no prerequisites are queued;
   * each dequeued course counts as visited and releases its dependents,
   * queuing those whose counter drops to zero. All courses can be completed
   * exactly when every course gets visited, which is exactly when the
   * prerequisites form no cycle.
   */
  method IsCompletionPossible(g: CourseGraph) returns (possible: bool)
    requires Consistent(g)
    ensures possible <==> Acyclic(g.adj)
    ensures (exists u | 0 <= u < |g.adj| :: u in g.adj[u]) ==> !possible
    ensures (forall u | 0 <= u < |g.adj| :: g.adj[u] == []) ==> possible
  {
    var n := |g.adj|;
    var visitedCount, order := Kahn(g);
    possible := visitedCount == n;
    if exists u | 0 <= u < n :: u in g.adj[u] {
      var u :| 0 <= u < n && u in g.adj[u];
      SelfLoop(g.adj, u);
    }
    if forall u | 0 <= u < n :: g.adj[u] == [] {
      NoEdgesAcyclic(g.adj);
    }
  }

  /** A course that is its own prerequisite closes a cycle. */
  lemma SelfLoop(adj: seq<seq<int>>, u: nat)
    requires u < |adj| && u in adj[u]
    ensures !Acyclic(adj)
  {
    assert IsCycle(adj, [u, u]);
  }

  lemma NoEdgesAcyclic(adj: seq<seq<int>>)
    requires forall u | 0 <= u < |adj| :: adj[u] == []
    ensures Acyclic(adj)
  {
    forall c ensures !IsCycle(adj, c) {
      if |c| >= 2 {
        assert !Edge(adj, c[0], c[1]);
      }
    }
  }

  /**
   * The queue walk of `isCompletionPossible`: it visits each course at most
   * once, in an order where every course follows its prerequisites, and it
   * visits every course exactly when there is no cycle.
   */
  method Kahn(g: CourseGraph) returns (visitedCount: nat, ghost order: seq<int>)
    requires Consistent(g)
    ensures visitedCount == |order| <= |g.adj|
    ensures Distinct(order) && forall i | 0 <= i < |order| :: 0 <= order[i] < |g.adj|
    ensures Topo(g.adj, order)
    ensures visitedCount == |g.adj| <==> Acyclic(g.adj)
  {
    var adj := g.adj;
    var n := |adj|;
    var inDeg := g.inDegree;
    var queue := Ready(inDeg);
    ghost var visited := NoneVisited(n);
    order := [];
    CountTrueNone(n);
    visitedCount := 0;
    while |queue| > 0
      invariant KahnInv(adj, inDeg, queue, visited, order) && visitedCount == |order|
      decreases n - |order|
    {
      var course := queue[0];
      queue := queue[1..];
      visitedCount := visitedCount + 1;
      ghost var visited0, order0 := visited, order;
      visited, order := visited[course := true], order + [course];
      Dequeue(adj, inDeg, queue, visited0, order0, course, visited, order);
      inDeg, queue := Release(adj, inDeg, queue, visited, course);
    }
    Conclude(adj, inDeg, visited, order);
  }

  /**
   * The seeding loop: every course whose counter is zero, in increasing
   * order.
   */
  method Ready(inDeg: seq<int>) returns (queue: seq<int>)
    ensures Distinct(queue) && forall i | 0 <= i < |queue| :: 0 <= queue[i] < |inDeg|
    ensures forall v | 0 <= v < |inDeg| :: inDeg[v] == 0 <==> v in queue
  {
    queue := [];
    var i := 0;
    while i < |inDeg|
      invariant i <= |inDeg|
      invariant forall k | 0 <= k < |queue| :: 0 <= queue[k] < i
      invariant forall k, l | 0 <= k < l < |queue| :: queue[k] < queue[l]
      invariant forall v | 0 <= v < i :: inDeg[v] == 0 <==> v in queue
    {
      if inDeg[i] == 0 {
        queue := queue + [i];
      }
      i := i + 1;
    }
  }

  /** Dequeuing `course` turns the outer loop's state into the inner loop's start. */
  lemma Dequeue(adj: seq<seq<int>>, inDeg: seq<int>, rest: seq<int>, visited0: seq<bool>, order0: seq<int>,
                course: int, visited: seq<bool>, order: seq<int>)
    requires KahnInv(adj, inDeg, [course] + rest, visited0, order0)
    requires 0 <= course < |visited0|
    requires visited == visited0[course := true] && order == order0 + [course]
    ensures Releasing(adj, inDeg, rest, visited, course, 0)
    ensures Dequeued(visited, order) && Topo(adj, order)
  {
    var queue := [course] + rest;
    assert queue[0] == course;
    assert 0 <= course < |adj| && !visited0[course];
    var n := |adj|;
    forall v | 0 <= v < n ensures inDeg[v] == Incoming(adj, visited, v, n) + Occ(adj[course][0..], v) {
      IncomingVisit(adj, visited0, course, v, n);
      assert adj[course][0..] == adj[course];
    }
    forall i | 0 <= i < |rest| ensures rest[i] != course && 0 <= rest[i] < n && !visited[rest[i]] {
      assert rest[i] == queue[i + 1];
    }
    assert Distinct(rest) by {
      forall i, j | 0 <= i < j < |rest| ensures rest[i] != rest[j] {
        assert rest[i] == queue[i + 1] && rest[j] == queue[j + 1];
      }
    }
    forall v | 0 <= v < n ensures inDeg[v] == 0 <==> visited[v] || v in rest {
      assert v in queue <==> v == course || v in rest;
    }
    CountTrueSet(visited0, course);
    assert course !in order0;
    forall i, u | 0 <= i < |order| && 0 <= u < n && order[i] in adj[u] ensures u in order[..i] {
      if i < |order0| {
        assert order[..i] == order0[..i];
      } else {
        if !visited0[u] {
          IncomingPositive(adj, visited0, u, course, n);
        }
        assert order[..i] == order0;
      }
    }
  }

  /**
   * The loop over `course`'s dependents: each one's counter drops by one,
   * and a counter that reaches zero queues its course.
   */
  method Release(adj: seq<seq<int>>, inDeg0: seq<int>, queue0: seq<int>, ghost visited: seq<bool>, course: nat)
    returns (inDeg: seq<int>, queue: seq<int>)
    requires Releasing(adj, inDeg0, queue0, visited, course, 0)
    ensures Releasing(adj, inDeg, queue, visited, course, |adj[course]|)
    ensures forall v | 0 <= v < |adj| :: inDeg[v] == Incoming(adj, visited, v, |adj|)
  {
    inDeg, queue := inDeg0, queue0;
    var deps := adj[course];
    var j := 0;
    while j < |deps|
      invariant Releasing(adj, inDeg, queue, visited, course, j)
    {
      var d := deps[j];
      ghost var inDeg1, queue1 := inDeg, queue;
      inDeg := inDeg[d := inDeg[d] - 1];
      if inDeg[d] == 0 {
        queue := queue + [d];
      }
      ReleaseStep(adj, inDeg1, queue1, visited, course, j, inDeg, queue);
      j := j + 1;
    }
    assert adj[course][|adj[course]|..] == [];
  }

  lemma ReleaseStep(adj: seq<seq<int>>, inDeg0: seq<int>, queue0: seq<int>, visited: seq<bool>, course: nat, j: nat,
                    inDeg: seq<int>, queue: seq<int>)
    requires Releasing(adj, inDeg0, queue0, visited, course, j) && j < |adj[course]|
    requires var d := adj[course][j];
      && inDeg == inDeg0[d := inDeg0[d] - 1]
      && queue == if inDeg[d] == 0 then queue0 + [d] else queue0
    ensures Releasing(adj, inDeg, queue, visited, course, j + 1)
  {
    var d := adj[course][j];
    var s := adj[course][j..];
    assert s[0] == d && s[1..] == adj[course][j + 1..];
    assert 0 <= d < |adj|;
    PendingStep(adj, inDeg0, visited, s, inDeg);
    ReadyStep(inDeg0, queue0, visited, d, inDeg, queue);
  }

  /** Releasing the first of the pending edges lowers its target's counter by one. */
  lemma PendingStep(adj: seq<seq<int>>, inDeg0: seq<int>, visited: seq<bool>, s: seq<int>, inDeg: seq<int>)
    requires Pending(adj, inDeg0, visited, s) && |s| > 0 && 0 <= s[0] < |adj|
    requires inDeg == inDeg0[s[0] := inDeg0[s[0]] - 1]
    ensures Pending(adj, inDeg, visited, s[1..])
    ensures inDeg0[s[0]] > 0
  {
    forall v | 0 <= v < |adj|
      ensures inDeg[v] == Incoming(adj, visited, v, |adj|) + Occ(s[1..], v)
    {
    }
  }

  /** A counter that reaches zero queues its course, which was neither visited nor queued before. */
  lemma ReadyStep(inDeg0: seq<int>, queue0: seq<int>, visited: seq<bool>, d: int, inDeg: seq<int>, queue: seq<int>)
    requires ZeroIffReached(inDeg0, queue0, visited) && Queued(queue0, visited)
    requires 0 <= d < |visited| && inDeg0[d] > 0
    requires inDeg == inDeg0[d := inDeg0[d] - 1]
    requires queue == if inDeg[d] == 0 then queue0 + [d] else queue0
    ensures ZeroIffReached(inDeg, queue, visited) && Queued(queue, visited)
  {
    assert !visited[d] && d !in queue0;
    forall v | 0 <= v < |visited| ensures inDeg[v] == 0 <==> visited[v] || v in queue {
      assert v != d ==> (v in queue <==> v in queue0);
    }
    forall i | 0 <= i < |queue| ensures 0 <= queue[i] < |visited| && !visited[queue[i]] {
      assert i < |queue0| ==> queue[i] == queue0[i];
    }
    forall i, k | 0 <= i < k < |queue| ensures queue[i] != queue[k] {
      assert i < |queue0| ==> queue[i] == queue0[i];
      assert k < |queue0| ==> queue[k] == queue0[k];
    }
  }

  /**
   * When the queue runs dry, every course was visited exactly when no cycle
   * exists: a course left unvisited still has an unvisited prerequisite, and
   * stepping back through those must revisit a course.
   */
  lemma Conclude(adj: seq<seq<int>>, inDeg: seq<int>, visited: seq<bool>, order: seq<int>)
    requires KahnInv(adj, inDeg, [], visited, order)
    ensures |order| <= |adj|
    ensures |order| == |adj| <==> Acyclic(adj)
  {
    var n := |adj|;
    if |order| < n {
      var v := Unvisited(visited);
      assert Stuck(adj, visited) by {
        forall u | 0 <= u < n && !visited[u] ensures Incoming(adj, visited, u, n) > 0 {
          assert u !in [];
        }
      }
      StuckCycle(adj, visited, v);
    } else {
      AllVisited(visited);
      OrderedAcyclic(adj, order);
    }
  }

  lemma {:induction false} AllVisited(s: seq<bool>)
    requires CountTrue(s) == |s|
    ensures forall v | 0 <= v < |s| :: s[v]
    decreases |s|
  {
    if |s| > 0 {
      AllVisited(s[..|s| - 1]);
      assert forall v | 0 <= v < |s| - 1 :: s[..|s| - 1][v] == s[v];
    }
  }
}
