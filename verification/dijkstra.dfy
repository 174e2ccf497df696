/** Single-source shortest paths by lazy Dijkstra (`dijkstra`,
    `constructGraph`, `Pair.compareTo`).

    The graph is undirected: each row `[u, v, w]` of `edges` is stored in the
    adjacency list of `u` as `(v, w)` and in that of `v` as `(u, w)`. The
    search keeps `ans`, every entry `Integer.MAX_VALUE` until its vertex is
    finalised, and a priority queue of `(vertex, tentative distance)` pairs
    ordered by distance. A vertex is finalised the first time it is popped;
    later, stale pairs for it are skipped. The library priority queue is a
    multiset here, and `remove()` an extract-min that may pick any of
    several pairs of equal weight.

    Distances are unbounded integers; when every weight `w` satisfies
    `0 <= w` and `V * w < Integer.MAX_VALUE`, no sum the search forms
    overflows a Java `int` or reaches `Integer.MAX_VALUE`, which is what
    `Dijkstra` requires. */
module ShortestPath {

  /** `Integer.MAX_VALUE`, the mark of a vertex not finalised yet. */
  const MAX: int := 0x7fff_ffff

  /** `Pair(v, wt)`: an adjacency entry (neighbour, edge weight) or a queue
      entry (vertex, distance). */
  datatype Pair = Pair(v: int, wt: int)

  /** A row `[u, v, w]` of the `edges` array. */
  datatype Edge = Edge(u: int, v: int, w: int)

  /** The state of the main loop: `ans` and the contents of the queue. */
  datatype Search = Search(ans: seq<int>, pq: multiset<Pair>)

  // ---------------------------------------------------------------------
  // Pair.compareTo
  // ---------------------------------------------------------------------

  /** Two's-complement wrap-around of a Java `int` result. */
  function Wrap32(n: int): (r: int)
    ensures -0x8000_0000 <= r < 0x8000_0000
    ensures (r - n) % 0x1_0000_0000 == 0
  {
    (n + 0x8000_0000) % 0x1_0000_0000 - 0x8000_0000
  }

  /** `compareTo`: `this.wt - other.wt` in 32-bit arithmetic. */
  function CompareTo(a: Pair, b: Pair): int
  {
    Wrap32(a.wt - b.wt)
  }

  /** For weights in `[0, Integer.MAX_VALUE]` the subtraction cannot
      overflow, so the sign of `compareTo` is the order of the weights. */
  lemma CompareToOrdersByWeight(a: Pair, b: Pair)
    requires 0 <= a.wt <= MAX && 0 <= b.wt <= MAX
    ensures CompareTo(a, b) < 0 <==> a.wt < b.wt
    ensures CompareTo(a, b) == 0 <==> a.wt == b.wt
    ensures CompareTo(a, b) > 0 <==> a.wt > b.wt
  {
    assert -0x8000_0000 <= a.wt - b.wt < 0x8000_0000;
    assert CompareTo(a, b) == a.wt - b.wt;
  }

  /** Outside that range the subtraction can leave the `int` range and then
      wraps, inverting the order: a pair of weight -2, say, compares above
      one of weight `Integer.MAX_VALUE`. */
  lemma CompareToWrapsOnWideGap(a: Pair, b: Pair)
    requires -0x8000_0000 <= a.wt < 0x8000_0000 && -0x8000_0000 <= b.wt < 0x8000_0000
    requires a.wt - b.wt < -0x8000_0000 || a.wt - b.wt >= 0x8000_0000
    ensures a.wt < b.wt ==> CompareTo(a, b) > 0
    ensures a.wt > b.wt ==> CompareTo(a, b) < 0
  {
  }

  // ---------------------------------------------------------------------
  // constructGraph
  // ---------------------------------------------------------------------

  /** Every endpoint names one of the vertices `0..V-1`. */
  ghost predicate EdgesIn(edges: seq<Edge>, V: int)
  {
    forall i :: 0 <= i < |edges| ==> 0 <= edges[i].u < V && 0 <= edges[i].v < V
  }

  /** Edge `e` joins `x` to `q.v` with weight `q.wt`, in either direction. */
  predicate Incident(e: Edge, x: int, q: Pair)
  {
    (e.u == x && q == Pair(e.v, e.w)) || (e.v == x && q == Pair(e.u, e.w))
  }

  /** Reference definition of the adjacency list of `x`: for each edge in
      turn, `(v, w)` if it starts at `x`, then `(u, w)` if it ends at `x`. */
  function Adj(edges: seq<Edge>, x: int): seq<Pair>
  {
    if edges == [] then []
    else
      var e := edges[|edges| - 1];
      Adj(edges[..|edges| - 1], x)
        + (if e.u == x then [Pair(e.v, e.w)] else [])
        + (if e.v == x then [Pair(e.u, e.w)] else [])
  }

  /** The graph has a step from `x` to `q.v` of weight `q.wt`. */
  ghost predicate Joins(edges: seq<Edge>, x: int, q: Pair)
  {
    q in Adj(edges, x)
  }

  /** A step exists exactly when some edge joins its two ends, in either
      direction, with that weight. */
  lemma {:induction false} JoinsMeansEdge(edges: seq<Edge>, x: int, q: Pair)
    ensures Joins(edges, x, q) <==> exists j :: 0 <= j < |edges| && Incident(edges[j], x, q)
  {
    if edges != [] {
      var n := |edges|;
      var pre := edges[..n - 1];
      JoinsMeansEdge(pre, x, q);
      if exists j :: 0 <= j < n && Incident(edges[j], x, q) {
        var j :| 0 <= j < n && Incident(edges[j], x, q);
        if j < n - 1 {
          assert pre[j] == edges[j];
        }
      }
      if exists j :: 0 <= j < n - 1 && Incident(pre[j], x, q) {
        var j :| 0 <= j < n - 1 && Incident(pre[j], x, q);
        assert edges[j] == pre[j];
      }
    }
  }

  /** The undirected graph is symmetric: an edge seen from one end is seen
      with the same weight from the other. */
  lemma JoinsIsSymmetric(edges: seq<Edge>, x: int, y: int, w: int)
    ensures Joins(edges, x, Pair(y, w)) <==> Joins(edges, y, Pair(x, w))
  {
    JoinsMeansEdge(edges, x, Pair(y, w));
    JoinsMeansEdge(edges, y, Pair(x, w));
    if Joins(edges, x, Pair(y, w)) {
      var j :| 0 <= j < |edges| && Incident(edges[j], x, Pair(y, w));
      assert Incident(edges[j], y, Pair(x, w));
    }
    if Joins(edges, y, Pair(x, w)) {
      var j :| 0 <= j < |edges| && Incident(edges[j], y, Pair(x, w));
      assert Incident(edges[j], x, Pair(y, w));
    }
  }

  /** `constructGraph(edges, V)`: `V` lists, and each edge appended to the
      lists of both its endpoints. */
  method ConstructGraph(edges: seq<Edge>, V: int) returns (g: seq<seq<Pair>>)
    requires V >= 0 && EdgesIn(edges, V)
    ensures |g| == V
    ensures forall x :: 0 <= x < V ==> g[x] == Adj(edges, x)
  {
    g := seq(V, _ => []);
    var i := 0;
    while i < |edges|
      invariant 0 <= i <= |edges| && |g| == V
      invariant forall x :: 0 <= x < V ==> g[x] == Adj(edges[..i], x)
    {
      var u, v, wt := edges[i].u, edges[i].v, edges[i].w;
      g := g[u := g[u] + [Pair(v, wt)]];
      g := g[v := g[v] + [Pair(u, wt)]];
      assert edges[..i + 1][..i] == edges[..i];
      i := i + 1;
    }
    assert edges[..i] == edges;
  }

  /** In the lists `constructGraph` builds, `q` is in the list of `x`
      exactly when some edge joins `x` to `q.v` with weight `q.wt`, in either
      direction. */
  lemma AdjacencyIsIncidence(edges: seq<Edge>, V: int, g: seq<seq<Pair>>)
    requires |g| == V && forall x :: 0 <= x < V ==> g[x] == Adj(edges, x)
    ensures forall x, q :: 0 <= x < V ==>
      (q in g[x] <==> exists j :: 0 <= j < |edges| && Incident(edges[j], x, q))
  {
    forall x, q | 0 <= x < V
      ensures q in g[x] <==> exists j :: 0 <= j < |edges| && Incident(edges[j], x, q)
    {
      JoinsMeansEdge(edges, x, q);
    }
  }

  /** The lists `constructGraph` builds are symmetric: `(y, w)` is in the
      list of `x` exactly when `(x, w)` is in the list of `y`. */
  lemma AdjacencyIsSymmetric(edges: seq<Edge>, V: int, g: seq<seq<Pair>>)
    requires |g| == V && forall x :: 0 <= x < V ==> g[x] == Adj(edges, x)
    ensures forall x, y, w :: 0 <= x < V && 0 <= y < V ==> (Pair(y, w) in g[x] <==> Pair(x, w) in g[y])
  {
    forall x, y, w | 0 <= x < V && 0 <= y < V
      ensures Pair(y, w) in g[x] <==> Pair(x, w) in g[y]
    {
      JoinsIsSymmetric(edges, x, y, w);
    }
  }

  // ---------------------------------------------------------------------
  // Walks
  // ---------------------------------------------------------------------

  /** The vertex a walk from `src` ends at; step `p[k]` moves to vertex
      `p[k].v` over an edge of weight `p[k].wt`. */
  function End(src: int, p: seq<Pair>): int
  {
    if p == [] then src else p[|p| - 1].v
  }

  /** The total weight of a walk. */
  function Cost(p: seq<Pair>): int
  {
    if p == [] then 0 else Cost(p[..|p| - 1]) + p[|p| - 1].wt
  }

  /** Every step of `p` follows an edge. */
  ghost predicate IsWalk(edges: seq<Edge>, src: int, p: seq<Pair>)
    decreases |p|
  {
    p == [] || (IsWalk(edges, src, p[..|p| - 1]) && Joins(edges, End(src, p[..|p| - 1]), p[|p| - 1]))
  }

  ghost predicate Reachable(edges: seq<Edge>, src: int, v: int)
  {
    exists p :: IsWalk(edges, src, p) && End(src, p) == v
  }

  /** Some walk from `src` to `v` costs `d`. */
  ghost predicate Attains(edges: seq<Edge>, src: int, v: int, d: int)
  {
    exists p :: IsWalk(edges, src, p) && End(src, p) == v && Cost(p) == d
  }

  /** No walk from `src` to `v` costs less than `d`. */
  ghost predicate LowerBound(edges: seq<Edge>, src: int, v: int, d: int)
  {
    forall p :: IsWalk(edges, src, p) && End(src, p) == v ==> d <= Cost(p)
  }

  /** `d` is the shortest distance from `src` to `v`. */
  ghost predicate IsDistance(edges: seq<Edge>, src: int, v: int, d: int)
  {
    Attains(edges, src, v, d) && LowerBound(edges, src, v, d)
  }

  /** Endpoints in range, weights in `[0, maxW]`, and `V * maxW` below
      `Integer.MAX_VALUE`. */
  ghost predicate WellWeighted(edges: seq<Edge>, V: int, maxW: int)
  {
    && EdgesIn(edges, V)
    && (forall i :: 0 <= i < |edges| ==> 0 <= edges[i].w <= maxW)
    && 0 <= maxW && V * maxW < MAX
  }

  /** Both ends of a step are vertices and its weight is in `[0, maxW]`. */
  lemma JoinsInRange(edges: seq<Edge>, V: int, maxW: int, x: int, q: Pair)
    requires WellWeighted(edges, V, maxW) && Joins(edges, x, q)
    ensures 0 <= x < V && 0 <= q.v < V && 0 <= q.wt <= maxW
  {
    JoinsMeansEdge(edges, x, q);
    var j :| 0 <= j < |edges| && Incident(edges[j], x, q);
  }

  lemma WalkExtend(edges: seq<Edge>, src: int, p: seq<Pair>, q: Pair)
    requires IsWalk(edges, src, p) && Joins(edges, End(src, p), q)
    ensures IsWalk(edges, src, p + [q]) && End(src, p + [q]) == q.v && Cost(p + [q]) == Cost(p) + q.wt
  {
    assert (p + [q])[..|p|] == p;
  }

  lemma {:induction false} WalkCostNonNegative(edges: seq<Edge>, V: int, maxW: int, src: int, p: seq<Pair>)
    requires WellWeighted(edges, V, maxW) && IsWalk(edges, src, p)
    ensures Cost(p) >= 0
  {
    if p != [] {
      WalkCostNonNegative(edges, V, maxW, src, p[..|p| - 1]);
      JoinsInRange(edges, V, maxW, End(src, p[..|p| - 1]), p[|p| - 1]);
    }
  }

  // ---------------------------------------------------------------------
  // The priority queue and the loop body
  // ---------------------------------------------------------------------

  /** The largest edge weight, 0 for no edges. */
  function MaxWeight(edges: seq<Edge>): (m: int)
    ensures m >= 0
    ensures forall i :: 0 <= i < |edges| ==> edges[i].w <= m
    ensures m == 0 || exists i :: 0 <= i < |edges| && edges[i].w == m
  {
    if edges == [] then 0
    else
      var m := MaxWeight(edges[..|edges| - 1]);
      var w := edges[|edges| - 1].w;
      if w > m then w else m
  }

  /** A pair of least weight in a non-empty queue. */
  ghost function MinPair(pq: multiset<Pair>): (m: Pair)
    requires pq != multiset{}
    ensures m in pq && forall q :: q in pq ==> m.wt <= q.wt
    decreases |pq|
  {
    var x :| x in pq;
    var rest := pq - multiset{x};
    assert pq == rest + multiset{x};
    if rest == multiset{} then x
    else
      var m := MinPair(rest);
      if x.wt < m.wt then x else m
  }

  /** `pq.remove()`: a pair no other pair compares below; the queue holds
      weights in `[0, Integer.MAX_VALUE]` only, where that is a pair of
      least weight. */
  method ExtractMin(pq: multiset<Pair>) returns (rem: Pair, rest: multiset<Pair>)
    requires pq != multiset{}
    requires forall q :: q in pq ==> 0 <= q.wt <= MAX
    ensures rem in pq && rest == pq - multiset{rem} && |rest| == |pq| - 1
    ensures forall q :: q in pq ==> CompareTo(rem, q) <= 0
    ensures forall q :: q in pq ==> rem.wt <= q.wt
  {
    ghost var least := MinPair(pq);
    rem :| rem in pq && forall q :: q in pq ==> rem.wt <= q.wt;
    rest := pq - multiset{rem};
    assert pq == rest + multiset{rem};
    forall q | q in pq
      ensures CompareTo(rem, q) <= 0
    {
      CompareToOrdersByWeight(rem, q);
    }
  }

  /** The inner `for` loop: a pair `(n.v, d + n.wt)` for each neighbour `n`
      that is not finalised, and for no other. */
  function Relax(ans: seq<int>, nbrs: seq<Pair>, d: int): (pushed: multiset<Pair>)
    requires forall i :: 0 <= i < |nbrs| ==> 0 <= nbrs[i].v < |ans|
    ensures forall i :: 0 <= i < |nbrs| && ans[nbrs[i].v] == MAX ==> Pair(nbrs[i].v, d + nbrs[i].wt) in pushed
  {
    if nbrs == [] then multiset{}
    else
      var pre, n := nbrs[..|nbrs| - 1], nbrs[|nbrs| - 1];
      Relax(ans, pre, d) + (if ans[n.v] == MAX then multiset{Pair(n.v, d + n.wt)} else multiset{})
  }

  /** Every pair `Relax` queues comes from a neighbour not finalised, with
      weight `d` plus the edge weight: the index of that neighbour. */
  ghost function RelaxSource(ans: seq<int>, nbrs: seq<Pair>, d: int, q: Pair): (i: int)
    requires forall i :: 0 <= i < |nbrs| ==> 0 <= nbrs[i].v < |ans|
    requires q in Relax(ans, nbrs, d)
    ensures 0 <= i < |nbrs| && ans[nbrs[i].v] == MAX && q == Pair(nbrs[i].v, d + nbrs[i].wt)
    decreases |nbrs|
  {
    var pre := nbrs[..|nbrs| - 1];
    if q in Relax(ans, pre, d) then
      RelaxSource(ans, pre, d, q)
    else
      RelaxLast(ans, nbrs, d, q);
      |nbrs| - 1
  }

  /** A pair `Relax` queues that the shorter list did not comes from the
      last neighbour. */
  lemma RelaxLast(ans: seq<int>, nbrs: seq<Pair>, d: int, q: Pair)
    requires nbrs != [] && forall i :: 0 <= i < |nbrs| ==> 0 <= nbrs[i].v < |ans|
    requires q in Relax(ans, nbrs, d) && q !in Relax(ans, nbrs[..|nbrs| - 1], d)
    ensures ans[nbrs[|nbrs| - 1].v] == MAX && q == Pair(nbrs[|nbrs| - 1].v, d + nbrs[|nbrs| - 1].wt)
  {
  }

  /** Every adjacency entry names a vertex. */
  ghost predicate ValidGraph(g: seq<seq<Pair>>)
  {
    forall x, n :: 0 <= x < |g| && n in g[x] ==> 0 <= n.v < |g|
  }

  /** One turn of the `while` loop after `rem` has been removed, leaving
      `pq`: a stale pair is skipped; otherwise `rem.v` is finalised at
      `rem.wt` and its neighbours not finalised are queued. */
  function Visit(g: seq<seq<Pair>>, ans: seq<int>, pq: multiset<Pair>, rem: Pair): (r: Search)
    requires ValidGraph(g) && |g| == |ans| && 0 <= rem.v < |ans|
    ensures |r.ans| == |ans|
    ensures forall x :: 0 <= x < |ans| && ans[x] != MAX ==> r.ans[x] == ans[x]
    ensures forall x :: 0 <= x < |ans| && x != rem.v ==> r.ans[x] == ans[x]
    ensures ans[rem.v] == MAX ==> r.ans[rem.v] == rem.wt
    ensures ans[rem.v] != MAX ==> r.pq == pq
    ensures forall q :: q in pq ==> q in r.pq
    ensures ans[rem.v] == MAX ==> forall i :: 0 <= i < |g[rem.v]| && r.ans[g[rem.v][i].v] == MAX ==>
      Pair(g[rem.v][i].v, rem.wt + g[rem.v][i].wt) in r.pq
  {
    if ans[rem.v] != MAX then Search(ans, pq) else Settle(g, ans, pq, rem)
  }

  /** The branch of `Visit` that finalises `rem.v`. */
  function Settle(g: seq<seq<Pair>>, ans: seq<int>, pq: multiset<Pair>, rem: Pair): Search
    requires ValidGraph(g) && |g| == |ans| && 0 <= rem.v < |ans|
  {
    var ans' := ans[rem.v := rem.wt];
    Search(ans', pq + Relax(ans', g[rem.v], rem.wt))
  }

  // ---------------------------------------------------------------------
  // The loop invariant
  // ---------------------------------------------------------------------

  /** `g` is the graph built from `edges`. */
  ghost predicate GraphOf(g: seq<seq<Pair>>, edges: seq<Edge>, V: int)
  {
    && |g| == V && ValidGraph(g)
    && forall x, q :: 0 <= x < V ==> (q in g[x] <==> Joins(edges, x, q))
  }

  /** Each queued pair names a vertex, is the cost of some walk, and is at
      most `maxW` times the number of vertices finalised. */
  ghost predicate QueueOk(edges: seq<Edge>, V: int, src: int, maxW: int, st: Search, unf: set<int>)
  {
    && |unf| <= V
    && forall q :: q in st.pq ==>
      0 <= q.v < V && 0 <= q.wt <= Times(V - |unf|, maxW) && Attains(edges, src, q.v, q.wt)
  }

  /** For every edge from a finalised `x` to a vertex not finalised, the
      pair it produced is still queued. */
  ghost predicate Frontier(V: int, g: seq<seq<Pair>>, st: Search)
    requires |st.ans| == V && |g| == V
  {
    forall x, i :: 0 <= x < V && st.ans[x] != MAX && 0 <= i < |g[x]| && 0 <= g[x][i].v < V && st.ans[g[x][i].v] == MAX ==>
      Pair(g[x][i].v, st.ans[x] + g[x][i].wt) in st.pq
  }

  /** Every finalised entry is the distance of its vertex. */
  ghost predicate Settled(edges: seq<Edge>, V: int, src: int, st: Search)
    requires |st.ans| == V
  {
    forall x :: 0 <= x < V && st.ans[x] != MAX ==> IsDistance(edges, src, x, st.ans[x])
  }

  /** Until `src` is finalised, `(src, 0)` is queued. */
  ghost predicate SourceQueued(src: int, st: Search)
    requires 0 <= src < |st.ans|
  {
    st.ans[src] == MAX ==> Pair(src, 0) in st.pq
  }

  /** No finalised distance exceeds a queued one. */
  ghost predicate Ordered(V: int, st: Search)
    requires |st.ans| == V
  {
    forall x, q :: 0 <= x < V && st.ans[x] != MAX && q in st.pq ==> st.ans[x] <= q.wt
  }

  /** `unf` holds every vertex not finalised, and at most `V` elements. */
  ghost predicate Unfinalised(V: int, st: Search, unf: set<int>)
    requires |st.ans| == V
  {
    (forall x :: 0 <= x < V && st.ans[x] == MAX ==> x in unf) && |unf| <= V
  }

  /** The invariant of the `while` loop. */
  ghost predicate Inv(edges: seq<Edge>, V: int, src: int, maxW: int, g: seq<seq<Pair>>, st: Search, unf: set<int>)
  {
    && |st.ans| == V && |g| == V && 0 <= src < V
    && Unfinalised(V, st, unf)
    && QueueOk(edges, V, src, maxW, st, unf)
    && Settled(edges, V, src, st)
    && Frontier(V, g, st)
    && SourceQueued(src, st)
    && Ordered(V, st)
  }

  /** A walk to a vertex not finalised costs at least some queued pair: it
      either starts at an unfinalised `src` (queued at 0) or leaves the
      finalised vertices over an edge whose pair is queued. */
  lemma {:induction false} CrossingBound(edges: seq<Edge>, V: int, src: int, maxW: int, g: seq<seq<Pair>>, st: Search, p: seq<Pair>)
    requires WellWeighted(edges, V, maxW) && GraphOf(g, edges, V) && |st.ans| == V && 0 <= src < V
    requires forall x :: 0 <= x < V && st.ans[x] != MAX ==> LowerBound(edges, src, x, st.ans[x])
    requires Frontier(V, g, st) && SourceQueued(src, st)
    requires IsWalk(edges, src, p) && 0 <= End(src, p) < V && st.ans[End(src, p)] == MAX
    ensures exists q :: q in st.pq && q.wt <= Cost(p)
    decreases |p|
  {
    if p == [] {
      assert Pair(src, 0) in st.pq;
    } else {
      var pre, step := p[..|p| - 1], p[|p| - 1];
      var x := End(src, pre);
      JoinsInRange(edges, V, maxW, x, step);
      if st.ans[x] == MAX {
        CrossingBound(edges, V, src, maxW, g, st, pre);
      } else {
        assert LowerBound(edges, src, x, st.ans[x]);
        assert st.ans[x] <= Cost(pre);
        LeavesFinalised(V, g, st, x, step);
      }
    }
  }

  /** The step from a finalised `x` to a vertex not finalised has its pair
      queued. */
  lemma LeavesFinalised(V: int, g: seq<seq<Pair>>, st: Search, x: int, step: Pair)
    requires |g| == V && |st.ans| == V && Frontier(V, g, st)
    requires 0 <= x < V && step in g[x] && 0 <= step.v < V
    requires st.ans[x] != MAX && st.ans[step.v] == MAX
    ensures Pair(step.v, st.ans[x] + step.wt) in st.pq
  {
    var i :| 0 <= i < |g[x]| && g[x][i] == step;
  }

  /** The first state of the loop: only `(src, 0)` queued. */
  lemma InitialInv(edges: seq<Edge>, V: int, src: int, maxW: int, g: seq<seq<Pair>>)
    requires WellWeighted(edges, V, maxW) && |g| == V && 0 <= src < V
    ensures Inv(edges, V, src, maxW, g, Search(seq(V, _ => MAX), multiset{Pair(src, 0)}), Below(V))
  {
    assert IsWalk(edges, src, []) && End(src, []) == src && Cost([]) == 0;
  }

  /** The vertices `0..V-1`. */
  function Below(V: nat): (s: set<int>)
    ensures forall x :: x in s <==> 0 <= x < V
    ensures |s| == V
  {
    if V == 0 then {} else Below(V - 1) + {V - 1}
  }

  /** Popping a stale pair keeps the invariant. */
  lemma StaleKeepsInv(edges: seq<Edge>, V: int, src: int, maxW: int, g: seq<seq<Pair>>, st: Search, unf: set<int>, rem: Pair)
    requires Inv(edges, V, src, maxW, g, st, unf)
    requires rem in st.pq && 0 <= rem.v < V && st.ans[rem.v] != MAX
    ensures Inv(edges, V, src, maxW, g, Search(st.ans, st.pq - multiset{rem}), unf)
  {
    var r := Search(st.ans, st.pq - multiset{rem});
    assert forall q :: q in r.pq ==> q in st.pq;
    assert Unfinalised(V, r, unf);
    assert QueueOk(edges, V, src, maxW, r, unf);
    assert Settled(edges, V, src, r);
    DropKeepsFrontier(V, g, st, rem);
    assert SourceQueued(src, r);
    assert Ordered(V, r);
  }

  /** Dropping a pair of a finalised vertex loses no frontier pair. */
  lemma DropKeepsFrontier(V: int, g: seq<seq<Pair>>, st: Search, rem: Pair)
    requires |st.ans| == V && |g| == V && Frontier(V, g, st)
    requires 0 <= rem.v < V && st.ans[rem.v] != MAX
    ensures Frontier(V, g, Search(st.ans, st.pq - multiset{rem}))
  {
    var pq := st.pq - multiset{rem};
    forall x, i | 0 <= x < V && st.ans[x] != MAX && 0 <= i < |g[x]| && 0 <= g[x][i].v < V && st.ans[g[x][i].v] == MAX
      ensures Pair(g[x][i].v, st.ans[x] + g[x][i].wt) in pq
    {
      var z := Pair(g[x][i].v, st.ans[x] + g[x][i].wt);
      assert z in st.pq && z != rem;
      assert pq[z] == st.pq[z];
    }
  }

  /** Popping a least pair of a vertex not finalised keeps the invariant. */
  lemma SettleKeepsInv(edges: seq<Edge>, V: int, src: int, maxW: int, g: seq<seq<Pair>>, st: Search, unf: set<int>, rem: Pair)
    requires WellWeighted(edges, V, maxW) && GraphOf(g, edges, V) && Inv(edges, V, src, maxW, g, st, unf)
    requires rem in st.pq && (forall q :: q in st.pq ==> rem.wt <= q.wt) && st.ans[rem.v] == MAX
    ensures Inv(edges, V, src, maxW, g, Settle(g, st.ans, st.pq - multiset{rem}, rem), unf - {rem.v})
  {
    var r := Settle(g, st.ans, st.pq - multiset{rem}, rem);
    var unf' := unf - {rem.v};
    assert rem.wt != MAX by {
      QueueBelowMax(edges, V, src, maxW, st, unf);
    }
    assert Unfinalised(V, r, unf') by {
      SettleUnfinalised(V, g, st, unf, rem);
    }
    assert QueueOk(edges, V, src, maxW, r, unf') by {
      SettleQueue(edges, V, src, maxW, g, st, unf, rem);
    }
    assert Settled(edges, V, src, r) by {
      SettleSettled(edges, V, src, maxW, g, st, rem);
    }
    assert Frontier(V, g, r) by {
      SettleFrontier(V, g, st, rem);
    }
    assert Ordered(V, r) by {
      SettleOrdered(edges, V, maxW, g, st, rem);
    }
    assert SourceQueued(src, r) by {
      SettleSourceQueued(V, src, g, st, rem);
    }
  }

  lemma RemoveOne(s: set<int>, y: int)
    requires y in s
    ensures |s - {y}| == |s| - 1
  {
    assert s == (s - {y}) + {y};
  }

  /** Finalising `rem.v` removes it from the vertices not finalised. */
  lemma SettleUnfinalised(V: int, g: seq<seq<Pair>>, st: Search, unf: set<int>, rem: Pair)
    requires |g| == V && ValidGraph(g) && |st.ans| == V && Unfinalised(V, st, unf)
    requires 0 <= rem.v < V && st.ans[rem.v] == MAX && rem.wt != MAX
    ensures Unfinalised(V, Settle(g, st.ans, st.pq - multiset{rem}, rem), unf - {rem.v})
  {
    RemoveOne(unf, rem.v);
  }

  /** Until `src` is finalised, `(src, 0)` stays queued: `rem` is not it. */
  lemma SettleSourceQueued(V: int, src: int, g: seq<seq<Pair>>, st: Search, rem: Pair)
    requires |g| == V && ValidGraph(g) && |st.ans| == V && 0 <= src < V && SourceQueued(src, st)
    requires rem in st.pq && 0 <= rem.v < V && st.ans[rem.v] == MAX
    ensures SourceQueued(src, Settle(g, st.ans, st.pq - multiset{rem}, rem))
  {
    if rem.v != src && st.ans[src] == MAX {
      KeepsOthers(st.pq, rem, Pair(src, 0), Relax(st.ans[rem.v := rem.wt], g[rem.v], rem.wt));
    }
  }

  /** `k * m` as repeated addition, which keeps the weight bound linear. */
  function Times(k: nat, m: int): int
  {
    if k == 0 then 0 else Times(k - 1, m) + m
  }

  lemma {:induction false} TimesIsProduct(k: nat, m: int)
    ensures Times(k, m) == k * m
  {
    if k > 0 {
      TimesIsProduct(k - 1, m);
    }
  }

  lemma {:induction false} TimesMonotone(j: nat, k: nat, m: int)
    requires j <= k && m >= 0
    ensures 0 <= Times(j, m) <= Times(k, m)
    decreases k
  {
    if j < k {
      TimesMonotone(j, k - 1, m);
    } else if k > 0 {
      TimesMonotone(j - 1, k - 1, m);
    }
  }

  /** Every queued weight is below `Integer.MAX_VALUE`. */
  lemma QueueBelowMax(edges: seq<Edge>, V: int, src: int, maxW: int, st: Search, unf: set<int>)
    requires WellWeighted(edges, V, maxW) && QueueOk(edges, V, src, maxW, st, unf)
    ensures forall q :: q in st.pq ==> 0 <= q.v < V && 0 <= q.wt < MAX
  {
    WeightBound(V, |unf|, maxW);
  }

  /** The weight bound stays below `Integer.MAX_VALUE`. */
  lemma WeightBound(V: int, k: int, maxW: int)
    requires 0 <= k <= V && maxW >= 0 && V * maxW < MAX
    ensures 0 <= Times(V - k, maxW) < MAX
  {
    TimesMonotone(V - k, V, maxW);
    TimesIsProduct(V, maxW);
  }

  /** Settling a vertex raises the bound on queued weights by `maxW`. */
  lemma SettleQueue(edges: seq<Edge>, V: int, src: int, maxW: int, g: seq<seq<Pair>>, st: Search, unf: set<int>, rem: Pair)
    requires WellWeighted(edges, V, maxW) && GraphOf(g, edges, V) && |st.ans| == V
    requires QueueOk(edges, V, src, maxW, st, unf) && rem.v in unf && |unf| <= V
    requires rem in st.pq && st.ans[rem.v] == MAX
    ensures QueueOk(edges, V, src, maxW, Settle(g, st.ans, st.pq - multiset{rem}, rem), unf - {rem.v})
  {
    RemoveOne(unf, rem.v);
    var bound := Times(V - |unf|, maxW);
    assert Times(V - |unf - {rem.v}|, maxW) == bound + maxW;
    SettlePushes(edges, V, src, maxW, g, st, rem, bound);
  }

  /** The pairs left after removing `rem`, and one pair per edge out of
      `rem.v`, each heavier than `bound` by at most `maxW` and each the cost
      of a walk. */
  lemma SettlePushes(edges: seq<Edge>, V: int, src: int, maxW: int, g: seq<seq<Pair>>, st: Search, rem: Pair, bound: int)
    requires WellWeighted(edges, V, maxW) && GraphOf(g, edges, V) && |st.ans| == V
    requires forall q :: q in st.pq ==> 0 <= q.v < V && 0 <= q.wt <= bound && Attains(edges, src, q.v, q.wt)
    requires rem in st.pq && st.ans[rem.v] == MAX
    ensures forall q :: q in Settle(g, st.ans, st.pq - multiset{rem}, rem).pq ==>
      0 <= q.v < V && 0 <= q.wt <= bound + maxW && Attains(edges, src, q.v, q.wt)
  {
    var y := rem.v;
    var ans' := st.ans[y := rem.wt];
    var left := st.pq - multiset{rem};
    var pushed := Relax(ans', g[y], rem.wt);
    assert Settle(g, st.ans, left, rem).pq == left + pushed;
    var p :| IsWalk(edges, src, p) && End(src, p) == y && Cost(p) == rem.wt;
    forall q: Pair | q in left + pushed
      ensures 0 <= q.v < V && 0 <= q.wt <= bound + maxW && Attains(edges, src, q.v, q.wt)
    {
      if q in left {
        assert q in st.pq;
      } else {
        PushedAttains(edges, V, src, maxW, g, ans', p, q);
      }
    }
  }

  /** A pair queued by relaxing the neighbours of the end of walk `p` is
      the cost of `p` extended by one edge. */
  lemma PushedAttains(edges: seq<Edge>, V: int, src: int, maxW: int, g: seq<seq<Pair>>, ans: seq<int>, p: seq<Pair>, q: Pair)
    requires WellWeighted(edges, V, maxW) && GraphOf(g, edges, V) && |ans| == V
    requires IsWalk(edges, src, p) && 0 <= End(src, p) < V
    requires q in Relax(ans, g[End(src, p)], Cost(p))
    ensures 0 <= q.v < V && Cost(p) <= q.wt <= Cost(p) + maxW && Attains(edges, src, q.v, q.wt)
  {
    var y := End(src, p);
    var i := RelaxSource(ans, g[y], Cost(p), q);
    assert g[y][i] in g[y];
    StepAttains(edges, V, maxW, src, p, g[y][i]);
  }

  /** A walk followed by one more edge is a walk to the far end of the edge. */
  lemma StepAttains(edges: seq<Edge>, V: int, maxW: int, src: int, p: seq<Pair>, n: Pair)
    requires WellWeighted(edges, V, maxW) && IsWalk(edges, src, p) && Joins(edges, End(src, p), n)
    ensures 0 <= n.v < V && 0 <= n.wt <= maxW
    ensures Attains(edges, src, n.v, Cost(p) + n.wt)
  {
    JoinsInRange(edges, V, maxW, End(src, p), n);
    WalkExtend(edges, src, p, n);
  }

  /** The pair popped first for a vertex carries its distance. */
  lemma SettleDistance(edges: seq<Edge>, V: int, src: int, maxW: int, g: seq<seq<Pair>>, st: Search, rem: Pair)
    requires WellWeighted(edges, V, maxW) && GraphOf(g, edges, V) && |st.ans| == V && 0 <= src < V
    requires Settled(edges, V, src, st) && Frontier(V, g, st) && SourceQueued(src, st)
    requires Attains(edges, src, rem.v, rem.wt)
    requires rem in st.pq && (forall q :: q in st.pq ==> rem.wt <= q.wt) && 0 <= rem.v < V && st.ans[rem.v] == MAX
    ensures IsDistance(edges, src, rem.v, rem.wt)
  {
    forall p | IsWalk(edges, src, p) && End(src, p) == rem.v
      ensures rem.wt <= Cost(p)
    {
      CrossingBound(edges, V, src, maxW, g, st, p);
    }
  }

  /** After settling `rem.v` every finalised entry is still a distance. */
  lemma SettleSettled(edges: seq<Edge>, V: int, src: int, maxW: int, g: seq<seq<Pair>>, st: Search, rem: Pair)
    requires WellWeighted(edges, V, maxW) && GraphOf(g, edges, V) && |st.ans| == V && 0 <= src < V
    requires Settled(edges, V, src, st) && Frontier(V, g, st) && SourceQueued(src, st)
    requires Attains(edges, src, rem.v, rem.wt)
    requires rem in st.pq && (forall q :: q in st.pq ==> rem.wt <= q.wt) && 0 <= rem.v < V && st.ans[rem.v] == MAX
    ensures Settled(edges, V, src, Settle(g, st.ans, st.pq - multiset{rem}, rem))
  {
    SettleDistance(edges, V, src, maxW, g, st, rem);
  }

  /** Settling `rem.v` keeps every frontier pair queued: those of the new
      vertex were just pushed, the others were queued and are not `rem`. */
  lemma SettleFrontier(V: int, g: seq<seq<Pair>>, st: Search, rem: Pair)
    requires |g| == V && ValidGraph(g) && |st.ans| == V
    requires Frontier(V, g, st)
    requires rem in st.pq && 0 <= rem.v < V && st.ans[rem.v] == MAX && rem.wt != MAX
    ensures Frontier(V, g, Settle(g, st.ans, st.pq - multiset{rem}, rem))
  {
    var r := Settle(g, st.ans, st.pq - multiset{rem}, rem);
    forall x, i | 0 <= x < V && r.ans[x] != MAX && 0 <= i < |g[x]| && 0 <= g[x][i].v < V && r.ans[g[x][i].v] == MAX
      ensures Pair(g[x][i].v, r.ans[x] + g[x][i].wt) in r.pq
    {
      FrontierPair(V, g, st, rem, x, i);
    }
  }

  /** One frontier pair after settling `rem.v`. */
  lemma FrontierPair(V: int, g: seq<seq<Pair>>, st: Search, rem: Pair, x: int, i: int)
    requires |g| == V && ValidGraph(g) && |st.ans| == V
    requires Frontier(V, g, st)
    requires rem in st.pq && 0 <= rem.v < V && st.ans[rem.v] == MAX && rem.wt != MAX
    requires 0 <= x < V && 0 <= i < |g[x]|
    ensures var r := Settle(g, st.ans, st.pq - multiset{rem}, rem);
      r.ans[x] != MAX && r.ans[g[x][i].v] == MAX ==> Pair(g[x][i].v, r.ans[x] + g[x][i].wt) in r.pq
  {
    var y := rem.v;
    var ans' := st.ans[y := rem.wt];
    var left := st.pq - multiset{rem};
    var pushed := Relax(ans', g[y], rem.wt);
    assert Settle(g, st.ans, left, rem) == Search(ans', left + pushed);
    if ans'[x] != MAX && ans'[g[x][i].v] == MAX {
      if x == y {
        assert Pair(g[y][i].v, rem.wt + g[y][i].wt) in pushed;
      } else {
        assert ans'[x] == st.ans[x] && st.ans[g[x][i].v] == MAX;
        KeepsOthers(st.pq, rem, Pair(g[x][i].v, st.ans[x] + g[x][i].wt), pushed);
      }
    }
  }

  /** Removing one pair keeps every other. */
  lemma KeepsOthers(pq: multiset<Pair>, rem: Pair, z: Pair, pushed: multiset<Pair>)
    requires z in pq && z != rem
    ensures z in pq - multiset{rem} + pushed
  {
    assert (pq - multiset{rem})[z] == pq[z];
  }

  /** Settling `rem.v` keeps finalised distances below queued ones: the
      new distance is the least queued weight, and each pushed weight adds a
      non-negative edge weight to it. */
  lemma SettleOrdered(edges: seq<Edge>, V: int, maxW: int, g: seq<seq<Pair>>, st: Search, rem: Pair)
    requires WellWeighted(edges, V, maxW) && GraphOf(g, edges, V) && |st.ans| == V
    requires Ordered(V, st)
    requires rem in st.pq && (forall q :: q in st.pq ==> rem.wt <= q.wt) && 0 <= rem.v < V && st.ans[rem.v] == MAX
    ensures Ordered(V, Settle(g, st.ans, st.pq - multiset{rem}, rem))
  {
    var y := rem.v;
    var r := Settle(g, st.ans, st.pq - multiset{rem}, rem);
    forall x, q | 0 <= x < V && r.ans[x] != MAX && q in r.pq
      ensures r.ans[x] <= q.wt
    {
      if q !in st.pq - multiset{rem} {
        var i := RelaxSource(r.ans, g[y], rem.wt, q);
        assert g[y][i] in g[y];
        JoinsInRange(edges, V, maxW, y, g[y][i]);
      }
    }
  }

  /** When the queue is empty, exactly the reachable vertices are
      finalised, and `src` at distance 0. */
  lemma Finish(edges: seq<Edge>, V: int, src: int, maxW: int, g: seq<seq<Pair>>, st: Search, unf: set<int>)
    requires WellWeighted(edges, V, maxW) && GraphOf(g, edges, V) && Inv(edges, V, src, maxW, g, st, unf) && st.pq == multiset{}
    ensures st.ans[src] == 0
    ensures forall v :: 0 <= v < V ==> (st.ans[v] != MAX <==> Reachable(edges, src, v))
  {
    forall v | 0 <= v < V && Reachable(edges, src, v)
      ensures st.ans[v] != MAX
    {
      var p :| IsWalk(edges, src, p) && End(src, p) == v;
      if st.ans[v] == MAX {
        CrossingBound(edges, V, src, maxW, g, st, p);
        assert false;
      }
    }
    assert IsWalk(edges, src, []) && End(src, []) == src;
    var p :| IsWalk(edges, src, p) && End(src, p) == src && Cost(p) == st.ans[src];
    WalkCostNonNegative(edges, V, maxW, src, p);
    assert st.ans[src] <= Cost([]);
  }

  // ---------------------------------------------------------------------
  // dijkstra
  // ---------------------------------------------------------------------

  /** `dijkstra(V, edges, src)`: the distance from `src` to every vertex
      reachable from it, `Integer.MAX_VALUE` for the others. */
  method Dijkstra(V: int, edges: seq<Edge>, src: int) returns (ans: seq<int>)
    requires 0 <= src < V && EdgesIn(edges, V)
    requires forall i :: 0 <= i < |edges| ==> 0 <= edges[i].w && V * edges[i].w < MAX
    ensures |ans| == V && ans[src] == 0
    ensures forall v :: 0 <= v < V ==> (ans[v] != MAX <==> Reachable(edges, src, v))
    ensures forall v :: 0 <= v < V && ans[v] != MAX ==> IsDistance(edges, src, v, ans[v])
  {
    ghost var maxW := MaxWeight(edges);
    assert WellWeighted(edges, V, maxW) by {
      if maxW != 0 {
        var i :| 0 <= i < |edges| && edges[i].w == maxW;
      }
    }
    ans := seq(V, _ => MAX);
    var pq := multiset{Pair(src, 0)};
    var graph := ConstructGraph(edges, V);
    forall x: int, n: Pair | 0 <= x < V && n in graph[x]
      ensures 0 <= n.v < V
    {
      JoinsInRange(edges, V, maxW, x, n);
    }
    assert GraphOf(graph, edges, V);
    ghost var unf := Below(V);
    InitialInv(edges, V, src, maxW, graph);
    while |pq| > 0
      invariant Inv(edges, V, src, maxW, graph, Search(ans, pq), unf)
      decreases unf, |pq|
    {
      ans, pq, unf := Turn(edges, V, src, maxW, graph, ans, pq, unf);
    }
    Finish(edges, V, src, maxW, graph, Search(ans, pq), unf);
  }

  /** One turn of the `while` loop: `pq.remove()`, then `Visit`. Either a
      vertex is finalised or the queue shrinks. */
  method Turn(ghost edges: seq<Edge>, ghost V: int, ghost src: int, ghost maxW: int, graph: seq<seq<Pair>>,
              ans: seq<int>, pq: multiset<Pair>, ghost unf: set<int>)
    returns (ans': seq<int>, pq': multiset<Pair>, ghost unf': set<int>)
    requires WellWeighted(edges, V, maxW) && GraphOf(graph, edges, V)
    requires Inv(edges, V, src, maxW, graph, Search(ans, pq), unf) && |pq| > 0
    ensures Inv(edges, V, src, maxW, graph, Search(ans', pq'), unf')
    ensures unf' < unf || (unf' == unf && |pq'| < |pq|)
    ensures |ans'| == |ans| && forall x :: 0 <= x < |ans| && ans[x] != MAX ==> ans'[x] == ans[x]
  {
    QueueBelowMax(edges, V, src, maxW, Search(ans, pq), unf);
    var rem, rest := ExtractMin(pq);
    if ans[rem.v] == MAX {
      SettleKeepsInv(edges, V, src, maxW, graph, Search(ans, pq), unf, rem);
      unf' := unf - {rem.v};
    } else {
      StaleKeepsInv(edges, V, src, maxW, graph, Search(ans, pq), unf, rem);
      unf' := unf;
    }
    var next := Visit(graph, ans, rest, rem);
    ans', pq' := next.ans, next.pq;
  }
}
