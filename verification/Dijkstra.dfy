/**
 min_dist and Dijkstra of mospf_daemon.c over arrays, for any number of routers.
 Links weigh 1; the memset of the graph leaves every other entry at 0x7E7E7E7E.
 */
module Dijkstra {
  import opened Hops

  const INT8_MAX: int := 127
  const FAR: int := 0x7E7E7E7E

  /** The links recorded in the first `n` rows and columns. */
  ghost function Links(graph: array2<int>, n: nat): Edges
    requires n <= graph.Length0 && n <= graph.Length1
    reads graph
  {
    set u: nat, v: nat | u < n && v < n && graph[u, v] == 1 :: (u, v)
  }

  ghost predicate UnitGraph(graph: array2<int>, n: nat)
    reads graph
  {
    && n <= graph.Length0 && n <= graph.Length1
    && forall u, v :: 0 <= u < n && 0 <= v < n ==> graph[u, v] == 1 || graph[u, v] == FAR
  }

  /** Addition of 32-bit ints that must not overflow. */
  function AddInt(a: int, b: int): int
    requires -0x8000_0000 <= a + b < 0x8000_0000
  {
    a + b
  }

  /** `prev` links every reached vertex but 0 to a visited vertex one hop closer. */
  ghost predicate Tree(e: Edges, n: nat, dist: seq<int>, prev: seq<int>, visited: seq<bool>) {
    && 0 < n <= |dist| && n <= |prev| && n <= |visited|
    && dist[0] == 0 && prev[0] == -1
    && (forall v: nat :: v < n ==> 0 <= dist[v] <= INT8_MAX)
    && (forall v: nat {:trigger prev[v]} :: v < n && v != 0 && dist[v] < INT8_MAX ==>
          && 0 <= prev[v] < n && visited[prev[v]] && (prev[v] as nat, v) in e
          && dist[v] == dist[prev[v]] + 1)
    && (forall v: nat {:trigger prev[v]} :: v < n && v != 0 && dist[v] == INT8_MAX ==> prev[v] == -1)
  }

  /** Visited vertices are at most as far as the others. */
  ghost predicate Settled(n: nat, dist: seq<int>, visited: seq<bool>)
    requires n <= |dist| && n <= |visited|
  {
    forall u: nat, v: nat :: u < n && v < n && visited[u] && !visited[v] ==> dist[u] <= dist[v]
  }

  /** The edge from `u` to `v` offers no shorter way, unless it would reach the sentinel. */
  ghost predicate Relaxed(dist: seq<int>, u: nat, v: nat)
    requires u < |dist| && v < |dist|
  {
    dist[v] <= dist[u] + 1 || dist[u] + 1 >= INT8_MAX
  }

  ghost predicate VisitedRelaxed(e: Edges, n: nat, dist: seq<int>, visited: seq<bool>)
    requires n <= |dist| && n <= |visited|
  {
    forall u: nat, v: nat :: u < n && v < n && visited[u] && (u, v) in e ==> Relaxed(dist, u, v)
  }

  /** What the algorithm promises: distances up to 126 hops are exact, 127 stands for further or
      unreachable, and prev is a tree of shortest paths. */
  ghost predicate Shortest(e: Edges, n: nat, dist: seq<int>, prev: seq<int>) {
    && 0 < n <= |dist| && n <= |prev|
    && (forall v: nat :: v < n ==> 0 <= dist[v] <= INT8_MAX)
    && (forall v: nat :: v < n && dist[v] < INT8_MAX ==> IsDist(e, 0, v, dist[v]))
    && (forall v: nat, k: nat {:trigger dist[v], Reaches(e, 0, v, k)} ::
          v < n && dist[v] == INT8_MAX && k < INT8_MAX ==> !Reaches(e, 0, v, k))
    && dist[0] == 0 && prev[0] == -1
    && forall v: nat {:trigger prev[v]} :: v < n && v != 0 ==>
         if dist[v] == INT8_MAX then prev[v] == -1
         else 0 <= prev[v] < n && (prev[v] as nat, v) in e && dist[v] == dist[prev[v]] + 1
  }

  /** The first unvisited vertex of least distance, or -1 when all are visited. */
  method MinDist(dist: array<int>, visited: array<bool>, n: nat) returns (i: int)
    requires n <= dist.Length && n <= visited.Length
    ensures -1 <= i < n
    ensures i == -1 <==> forall u :: 0 <= u < n ==> visited[u]
    ensures i >= 0 ==> !visited[i]
    ensures i >= 0 ==> forall u :: 0 <= u < n && !visited[u] ==> dist[i] <= dist[u] && (u < i ==> dist[i] < dist[u])
  {
    i := -1;
    for u := 0 to n
      invariant -1 <= i < u
      invariant i == -1 <==> forall w :: 0 <= w < u ==> visited[w]
      invariant i >= 0 ==> !visited[i]
      invariant i >= 0 ==> forall w :: 0 <= w < u && !visited[w] ==> dist[i] <= dist[w] && (w < i ==> dist[i] < dist[w])
    {
      if !visited[u] {
        if i == -1 || dist[u] < dist[i] {
          i := u;
        }
      }
    }
  }

  method Dijkstra(graph: array2<int>, num: nat, prev: array<int>, dist: array<int>)
    requires 0 < num <= prev.Length == dist.Length && prev != dist
    requires UnitGraph(graph, num)
    modifies prev, dist
    ensures Shortest(Links(graph, num), num, dist[..], prev[..])
  {
    var visited := new bool[dist.Length];
    Initialise(prev, dist, visited);
    dist[0] := 0;
    ghost var e := Links(graph, num);
    ghost var d, p, vs := dist[..], prev[..], visited[..];
    NoneVisited(vs, num);
    Start(e, num, d, p, vs);
    for i := 0 to num
      invariant Outer(e, num, dist[..], prev[..], visited[..])
      invariant |Unvisited(visited[..], num)| == num - i
    {
      Round(graph, num, prev, dist, visited);
    }
    AllVisited(visited[..], num);
    TreeIsShortest(e, num, dist[..], prev[..], visited[..]);
  }

  /** One iteration of the outer loop: visit the nearest unvisited vertex and relax its edges. */
  method Round(graph: array2<int>, num: nat, prev: array<int>, dist: array<int>, visited: array<bool>)
    requires prev != dist && UnitGraph(graph, num)
    requires Outer(Links(graph, num), num, dist[..], prev[..], visited[..])
    requires |Unvisited(visited[..], num)| > 0
    modifies prev, dist, visited
    ensures Outer(Links(graph, num), num, dist[..], prev[..], visited[..])
    ensures |Unvisited(visited[..], num)| == |Unvisited(old(visited[..]), num)| - 1
  {
    ghost var e := Links(graph, num);
    ghost var d, p, vs := dist[..], prev[..], visited[..];
    var u := MinDist(dist, visited, num);
    assert u >= 0 by {
      var w := SomeUnvisited(vs, num);
      assert !visited[w];
    }
    VisitOne(vs, num, u);
    assert forall w :: 0 <= w < num ==> dist[w] == d[w] && visited[w] == vs[w];
    Visit(e, num, d, p, vs, u);
    visited[u] := true;
    assert visited[..] == vs[u := true];
    RelaxFrom(graph, num, prev, dist, visited, u);
    AllRelaxed(e, num, dist[..], prev[..], visited[..], u);
  }

  /** The invariant of the outer loop. */
  ghost predicate Outer(e: Edges, n: nat, dist: seq<int>, prev: seq<int>, visited: seq<bool>) {
    Tree(e, n, dist, prev, visited) && Settled(n, dist, visited) && VisitedRelaxed(e, n, dist, visited)
  }

  lemma Start(e: Edges, n: nat, dist: seq<int>, prev: seq<int>, visited: seq<bool>)
    requires 0 < n <= |dist| == |prev| == |visited| && dist[0] == 0
    requires forall k :: 0 < k < n ==> dist[k] == INT8_MAX
    requires forall k :: 0 <= k < n ==> prev[k] == -1 && !visited[k]
    ensures Outer(e, n, dist, prev, visited)
  {
  }

  lemma AllRelaxed(e: Edges, n: nat, dist: seq<int>, prev: seq<int>, visited: seq<bool>, u: nat)
    requires Relaxing(e, n, dist, prev, visited, u, n)
    ensures Outer(e, n, dist, prev, visited)
  {
  }

  method Initialise(prev: array<int>, dist: array<int>, visited: array<bool>)
    requires prev != dist && visited.Length == dist.Length == prev.Length
    modifies prev, dist, visited
    ensures forall k :: 0 <= k < dist.Length ==> dist[k] == INT8_MAX && prev[k] == -1 && !visited[k]
  {
    for i := 0 to dist.Length
      invariant forall k :: 0 <= k < i ==> dist[k] == INT8_MAX && prev[k] == -1 && !visited[k]
    {
      dist[i] := INT8_MAX;
      prev[i] := -1;
      visited[i] := false;
    }
  }

  /** The state of the inner loop after the edges from `u` to the vertices below `v`. */
  ghost predicate Relaxing(e: Edges, n: nat, dist: seq<int>, prev: seq<int>, visited: seq<bool>, u: nat, v: nat) {
    && Tree(e, n, dist, prev, visited) && Settled(n, dist, visited)
    && u < n && visited[u]
    && (forall w: nat :: w < n && visited[w] ==> dist[w] <= dist[u])
    && forall w: nat, x: nat :: w < n && x < n && visited[w] && (w != u || x < v) && (w, x) in e ==>
         Relaxed(dist, w, x)
  }

  lemma RelaxUpdate(e: Edges, n: nat, dist: seq<int>, prev: seq<int>, visited: seq<bool>, u: nat, v: nat)
    requires Relaxing(e, n, dist, prev, visited, u, v) && v < n
    requires !visited[v] && dist[u] + 1 < dist[v] && (u, v) in e
    ensures Relaxing(e, n, dist[v := dist[u] + 1], prev[v := u], visited, u, v + 1)
  {
    var dist' := dist[v := dist[u] + 1];
    forall w: nat, x: nat | w < n && x < n && visited[w] && (w != u || x < v + 1) && (w, x) in e
      ensures Relaxed(dist', w, x)
    {
      if w != u || x < v {
        assert Relaxed(dist, w, x);
      }
    }
  }

  lemma RelaxSkip(e: Edges, n: nat, dist: seq<int>, prev: seq<int>, visited: seq<bool>, u: nat, v: nat)
    requires Relaxing(e, n, dist, prev, visited, u, v) && v < n
    requires visited[v] || dist[u] + 1 >= dist[v] || (u, v) !in e
    ensures Relaxing(e, n, dist, prev, visited, u, v + 1)
  {
  }

  /** The inner loop: relax every edge that leaves the vertex just visited. */
  method RelaxFrom(graph: array2<int>, num: nat, prev: array<int>, dist: array<int>, visited: array<bool>, u: nat)
    requires prev != dist && UnitGraph(graph, num)
    requires Relaxing(Links(graph, num), num, dist[..], prev[..], visited[..], u, 0)
    modifies prev, dist
    ensures Relaxing(Links(graph, num), num, dist[..], prev[..], visited[..], u, num)
  {
    ghost var e, vs := Links(graph, num), visited[..];
    ghost var d, p := dist[..], prev[..];
    for v := 0 to num
      invariant dist[..] == d && prev[..] == p && visited[..] == vs
      invariant Relaxing(e, num, d, p, vs, u, v)
    {
      assert (u, v) in e <==> graph[u, v] == 1;
      assert dist[u] == d[u] && dist[v] == d[v] && visited[v] == vs[v];
      DistRange(e, num, d, p, vs, u);
      if !visited[v] && AddInt(dist[u], graph[u, v]) < dist[v] && graph[u, v] > 0 {
        DistRange(e, num, d, p, vs, v);
        RelaxUpdate(e, num, d, p, vs, u, v);
        dist[v] := AddInt(dist[u], graph[u, v]);
        prev[v] := u;
        d, p := d[v := d[u] + 1], p[v := u];
      } else {
        RelaxSkip(e, num, d, p, vs, u, v);
      }
    }
  }

  lemma DistRange(e: Edges, n: nat, dist: seq<int>, prev: seq<int>, visited: seq<bool>, v: nat)
    requires Tree(e, n, dist, prev, visited) && v < n
    ensures 0 <= dist[v] <= INT8_MAX
  {
  }

  function Unvisited(visited: seq<bool>, n: nat): set<nat>
    requires n <= |visited|
  {
    set v: nat | v < n && !visited[v]
  }

  lemma {:induction false} NoneVisited(visited: seq<bool>, n: nat)
    requires n <= |visited| && forall v :: 0 <= v < n ==> !visited[v]
    ensures |Unvisited(visited, n)| == n
  {
    if n > 0 {
      NoneVisited(visited, n - 1);
      assert Unvisited(visited, n) == Unvisited(visited, n - 1) + {n - 1};
    } else {
      assert Unvisited(visited, 0) == {};
    }
  }

  lemma SomeUnvisited(visited: seq<bool>, n: nat) returns (v: nat)
    requires n <= |visited| && |Unvisited(visited, n)| > 0
    ensures v < n && !visited[v]
  {
    v :| v in Unvisited(visited, n);
  }

  lemma VisitOne(visited: seq<bool>, n: nat, u: nat)
    requires n <= |visited| && u < n && !visited[u]
    ensures |Unvisited(visited[u := true], n)| == |Unvisited(visited, n)| - 1
  {
    assert Unvisited(visited[u := true], n) == Unvisited(visited, n) - {u};
  }

  lemma AllVisited(visited: seq<bool>, n: nat)
    requires n <= |visited| && |Unvisited(visited, n)| == 0
    ensures forall v :: 0 <= v < n ==> visited[v]
  {
    forall v | 0 <= v < n ensures visited[v] {
      assert v !in Unvisited(visited, n);
    }
  }

  /** Visiting the nearest vertex keeps the order of visits and leaves only its own edges to relax. */
  lemma Visit(e: Edges, n: nat, dist: seq<int>, prev: seq<int>, visited: seq<bool>, u: nat)
    requires Outer(e, n, dist, prev, visited) && u < n && !visited[u]
    requires forall w: nat :: w < n && !visited[w] ==> dist[u] <= dist[w]
    ensures Relaxing(e, n, dist, prev, visited[u := true], u, 0)
  {
  }

  /** When every edge is relaxed no walk is shorter than the computed distance. */
  lemma {:induction false} RelaxedBoundsWalks(e: Edges, n: nat, dist: seq<int>, visited: seq<bool>, v: nat, k: nat)
    requires 0 < n <= |dist| && n <= |visited| && dist[0] == 0
    requires forall u: nat :: u < n ==> visited[u] && dist[u] <= INT8_MAX
    requires forall p :: p in e ==> p.0 < n && p.1 < n
    requires VisitedRelaxed(e, n, dist, visited)
    requires Reaches(e, 0, v, k)
    ensures v < n && dist[v] <= k
    decreases k
  {
    if k > 0 {
      var w: nat :| Reaches(e, 0, w, k - 1) && (w, v) in e;
      RelaxedBoundsWalks(e, n, dist, visited, w, k - 1);
    }
  }

  lemma {:induction false} TreeReaches(e: Edges, n: nat, dist: seq<int>, prev: seq<int>, visited: seq<bool>, v: nat)
    requires Tree(e, n, dist, prev, visited) && v < n && dist[v] < INT8_MAX
    ensures Reaches(e, 0, v, dist[v])
    decreases dist[v]
  {
    if v == 0 {
    } else {
      TreeReaches(e, n, dist, prev, visited, prev[v]);
    }
  }

  lemma TreeIsShortest(e: Edges, n: nat, dist: seq<int>, prev: seq<int>, visited: seq<bool>)
    requires Tree(e, n, dist, prev, visited) && VisitedRelaxed(e, n, dist, visited)
    requires forall v: nat :: v < n ==> visited[v]
    requires forall p :: p in e ==> p.0 < n && p.1 < n
    ensures Shortest(e, n, dist, prev)
  {
    forall v: nat | v < n && dist[v] < INT8_MAX ensures IsDist(e, 0, v, dist[v]) {
      TreeReaches(e, n, dist, prev, visited, v);
      forall k: nat | k < dist[v] ensures !Reaches(e, 0, v, k) {
        if Reaches(e, 0, v, k) {
          RelaxedBoundsWalks(e, n, dist, visited, v, k);
        }
      }
    }
    forall v: nat, k: nat | v < n && dist[v] == INT8_MAX && k < INT8_MAX ensures !Reaches(e, 0, v, k) {
      if Reaches(e, 0, v, k) {
        RelaxedBoundsWalks(e, n, dist, visited, v, k);
      }
    }
  }

  /** With at most 127 routers the sentinel means unreachable, and every other value is exact. */
  lemma SentinelIsUnreachable(e: Edges, n: nat, dist: seq<int>, prev: seq<int>, v: nat, k: nat)
    requires Shortest(e, n, dist, prev) && n <= INT8_MAX && v < n
    requires forall p :: p in e ==> p.0 < n && p.1 < n
    ensures dist[v] == INT8_MAX ==> !Reaches(e, 0, v, k)
  {
    if dist[v] == INT8_MAX && Reaches(e, 0, v, k) {
      var d := DistExists(e, 0, v, k);
      DistBelow(e, 0, v, d, n);
    }
  }
}
