/**
 generate_rtable_thread: routers are taken nearest first, and each contributes
 routes for the networks that no nearer router has claimed.
 */
module RouteInstall {
  import opened Common
  import opened Hops
  import opened Dijkstra
  import opened RouteTable

  /** What one run of the thread works from. */
  datatype View = View(
    ids: seq<nat>, db: seq<DbEntry>, ifaces: seq<seq<Neighbor>>, dist: seq<int>, prev: seq<int>)
  {
    /** Every router in the database was reached, so every walk along prev stays in the array. */
    ghost predicate Valid() {
      && |ids| == |db| + 1 && Distinct(ids)
      && (forall j :: 0 < j < |ids| ==> ids[j] == db[j - 1].rid)
      && TreeShape(dist, prev, |ids|)
      && forall v: nat :: v < |ids| ==> dist[v] < INT8_MAX && (v > 0 ==> dist[v] > 0)
    }

    function Hop(t: nat): nat
      requires Valid() && 0 < t < |ids|
    {
      NextHop(dist, prev, |ids|, t)
    }

    /** The interface and address of the next hop towards router `t`. */
    function Gateway(t: nat): Option<(nat, nat)>
      requires Valid() && 0 < t < |ids|
    {
      FindNeighbor(ifaces, ids[Hop(t)], 0)
    }

    ghost predicate Advertises(t: nat, network: nat, mask: nat)
      requires 0 < t <= |db|
    {
      Lists(db[t - 1].lsas, network, mask)
    }

    /** `a` is a nearest router that advertises the network and can be reached through a known neighbour. */
    ghost predicate Nearest(a: nat, network: nat, mask: nat)
      requires Valid()
    {
      && 0 < a < |ids| && Advertises(a, network, mask) && Gateway(a).Some?
      && forall b: nat :: 0 < b < |ids| && Advertises(b, network, mask) && Gateway(b).Some? ==> dist[a] <= dist[b]
    }

    /** The route points to the next hop towards a nearest advertiser, through the first interface on
        which that router is heard. */
    ghost predicate RouteOk(r: Route)
      requires Valid()
    {
      exists a: nat :: Nearest(a, r.dest, r.mask) && Gateway(a) == Some((r.iface, r.gw))
        && LeadsTo(ifaces, r.iface, r.gw, ids[Hop(a)])
    }

    /** What the new table promises: direct routes first and untouched, then one route to a nearest
        advertiser for every other network that has one. */
    ghost predicate TableOk(direct: seq<Route>, rt: seq<Route>)
      requires Valid()
    {
      && direct <= rt
      && (forall i {:trigger RouteOk(rt[i])} :: |direct| <= i < |rt| ==> RouteOk(rt[i]))
      && Unique(rt, |direct|)
      && forall b: nat :: 0 < b < |ids| && Gateway(b).Some? ==> AllPresent(rt, db[b - 1].lsas)
    }
  }

  ghost predicate Lists(lsas: seq<Lsa>, network: nat, mask: nat) {
    exists i :: 0 <= i < |lsas| && lsas[i].network == network && lsas[i].mask == mask
  }

  /** From position `k` on, every route is for a network that no earlier route is for. */
  ghost predicate Unique(rt: seq<Route>, k: nat) {
    forall j :: k <= j < |rt| ==> !HasRoute(rt[..j], rt[j].dest, rt[j].mask)
  }

  ghost predicate AllPresent(rt: seq<Route>, lsas: seq<Lsa>) {
    forall i :: 0 <= i < |lsas| ==> HasRoute(rt, lsas[i].network, lsas[i].mask)
  }

  lemma PresentCovers(rt: seq<Route>, lsas: seq<Lsa>, network: nat, mask: nat)
    ensures AllPresent(rt, lsas) && Lists(lsas, network, mask) ==> HasRoute(rt, network, mask)
  {
  }

  lemma PrefixRoute(rt: seq<Route>, more: seq<Route>, j: nat, network: nat, mask: nat)
    requires rt <= more && |rt| <= j <= |more|
    ensures HasRoute(rt, network, mask) ==> HasRoute(more[..j], network, mask)
  {
    if HasRoute(rt, network, mask) {
      var i :| 0 <= i < |rt| && rt[i].dest == network && rt[i].mask == mask;
      assert more[..j][i] == rt[i];
    }
  }

  lemma HasRouteGrows(rt: seq<Route>, r: Route, network: nat, mask: nat)
    requires HasRoute(rt, network, mask)
    ensures HasRoute(rt + [r], network, mask)
  {
    var i :| 0 <= i < |rt| && rt[i].dest == network && rt[i].mask == mask;
    assert (rt + [r])[i] == rt[i];
  }

  lemma {:induction false} AddNothing(rt: seq<Route>, lsas: seq<Lsa>, i: nat, gw: nat, iface: nat)
    requires i <= |lsas| && AllPresent(rt, lsas)
    ensures AddRoutes(rt, lsas, i, gw, iface) == rt
  {
    if i > 0 {
      AddNothing(rt, lsas, i - 1, gw, iface);
    }
  }

  /** Adding keeps what was there and provides every network. */
  lemma {:induction false} AddRoutesProvides(rt: seq<Route>, lsas: seq<Lsa>, i: nat, gw: nat, iface: nat)
    requires i <= |lsas|
    ensures var after := AddRoutes(rt, lsas, i, gw, iface);
            && rt <= after
            && forall k :: 0 <= k < i ==> HasRoute(after, lsas[k].network, lsas[k].mask)
  {
    if i > 0 {
      AddRoutesProvides(rt, lsas, i - 1, gw, iface);
      var before, lsa := AddRoutes(rt, lsas, i - 1, gw, iface), lsas[i - 1];
      if !HasRoute(before, lsa.network, lsa.mask) {
        var r := Route(lsa.network, lsa.mask, gw, iface);
        assert (before + [r])[|before|] == r;
        forall k | 0 <= k < i - 1 ensures HasRoute(before + [r], lsas[k].network, lsas[k].mask) {
          HasRouteGrows(before, r, lsas[k].network, lsas[k].mask);
        }
      }
    }
  }

  /** Each new route is for a network of `lsas` that had none. */
  lemma {:induction false} AddRoutesAreNew(rt: seq<Route>, lsas: seq<Lsa>, i: nat, gw: nat, iface: nat)
    requires i <= |lsas|
    ensures var after := AddRoutes(rt, lsas, i, gw, iface);
            && Unique(after, |rt|)
            && forall j :: |rt| <= j < |after| ==>
                 after[j].gw == gw && after[j].iface == iface && Lists(lsas, after[j].dest, after[j].mask)
  {
    if i > 0 {
      AddRoutesAreNew(rt, lsas, i - 1, gw, iface);
      var before, lsa := AddRoutes(rt, lsas, i - 1, gw, iface), lsas[i - 1];
      if !HasRoute(before, lsa.network, lsa.mask) {
        UniqueGrows(before, Route(lsa.network, lsa.mask, gw, iface), |rt|);
      }
    }
  }

  lemma UniqueGrows(rt: seq<Route>, r: Route, k: nat)
    requires Unique(rt, k) && !HasRoute(rt, r.dest, r.mask)
    ensures Unique(rt + [r], k)
  {
    forall j | k <= j < |rt + [r]| ensures !HasRoute((rt + [r])[..j], (rt + [r])[j].dest, (rt + [r])[j].mask) {
      assert (rt + [r])[..j] == if j < |rt| then rt[..j] else rt;
    }
  }

  /** The work for the router just selected. The cursor `t` is overwritten with the next hop, so a
      later database entry of the next hop is handled once more; its networks are all present. */
  method ForRouter(ghost v: View, db: seq<DbEntry>, ifaces: seq<seq<Neighbor>>, routerList: array<nat>,
                   prev: array<int>, t0: nat, rt0: seq<Route>) returns (rt: seq<Route>)
    requires v.Valid() && v.db == db && v.ifaces == ifaces
    requires |v.ids| <= routerList.Length && routerList[..|v.ids|] == v.ids
    requires |v.ids| <= prev.Length && v.prev == prev[..]
    requires 0 < t0 < |v.ids|
    requires v.Gateway(t0).Some? && v.Hop(t0) != t0 ==> AllPresent(rt0, db[v.Hop(t0) - 1].lsas)
    ensures rt == Handled(v, t0, rt0)
  {
    rt := rt0;
    var t := t0;
    ghost var target := Handled(v, t0, rt0);
    for k := 0 to |db|
      invariant 0 < t < |v.ids|
      invariant k < t0 ==> t == t0 && rt == rt0
      invariant k >= t0 ==> t == v.Hop(t0) && rt == target && v.Gateway(t0).Some?
    {
      assert routerList[t] == v.ids[t];
      IdPosition(v, k, t);
      if db[k].rid == routerList[t] {
        HopOfHop(v, t0);
        t := FollowPrev(prev, v.dist, |db| + 1, t);
        assert routerList[t] == v.ids[t];
        var find, iface, gw := FindGateway(ifaces, routerList[t]);
        if !find {
          break;
        }
        SecondVisitAddsNothing(v, t0, rt0);
        rt := InstallRoutes(rt, db[k].lsas, gw, iface);
      }
    }
  }

  /** The table after the networks of router `t` are provided for. */
  ghost function Handled(v: View, t: nat, rt: seq<Route>): seq<Route>
    requires v.Valid() && 0 < t < |v.ids|
  {
    match v.Gateway(t)
    case None => rt
    case Some((iface, gw)) => AddRoutes(rt, v.db[t - 1].lsas, |v.db[t - 1].lsas|, gw, iface)
  }

  lemma IdPosition(v: View, k: nat, t: nat)
    requires v.Valid() && k < |v.db| && t < |v.ids|
    ensures v.db[k].rid == v.ids[t] <==> t == k + 1
  {
    assert v.ids[k + 1] == v.db[k].rid;
  }

  lemma SecondVisitAddsNothing(v: View, t: nat, rt: seq<Route>)
    requires v.Valid() && 0 < t < |v.ids|
    requires v.Gateway(t).Some? && v.Hop(t) != t ==> AllPresent(rt, v.db[v.Hop(t) - 1].lsas)
    ensures v.Gateway(t).Some? && v.Hop(t) != t ==>
              var (iface, gw) := v.Gateway(t).value;
              var lsas := v.db[v.Hop(t) - 1].lsas;
              AddRoutes(Handled(v, t, rt), lsas, |lsas|, gw, iface) == Handled(v, t, rt)
  {
    if v.Gateway(t).Some? && v.Hop(t) != t {
      var (iface, gw) := v.Gateway(t).value;
      var lsas := v.db[v.Hop(t) - 1].lsas;
      HopKeepsPresent(v, t, rt);
      AddNothing(Handled(v, t, rt), lsas, |lsas|, gw, iface);
    }
  }

  lemma HopOfHop(v: View, t: nat)
    requires v.Valid() && 0 < t < |v.ids|
    ensures v.Hop(v.Hop(t)) == v.Hop(t)
  {
  }

  lemma HopKeepsPresent(v: View, t: nat, rt: seq<Route>)
    requires v.Valid() && 0 < t < |v.ids| && v.Gateway(t).Some? && v.Hop(t) != t
    requires AllPresent(rt, v.db[v.Hop(t) - 1].lsas)
    ensures var (iface, gw) := v.Gateway(t).value;
            AllPresent(AddRoutes(rt, v.db[t - 1].lsas, |v.db[t - 1].lsas|, gw, iface), v.db[v.Hop(t) - 1].lsas)
  {
    var (iface, gw) := v.Gateway(t).value;
    AddRoutesProvides(rt, v.db[t - 1].lsas, |v.db[t - 1].lsas|, gw, iface);
    PresentKept(rt, Handled(v, t, rt), v.db[v.Hop(t) - 1].lsas);
  }

  // ---------------------------------------------------------------- the selection loop

  /** The table after the visited routers have been handled. */
  ghost predicate Partial(v: View, direct: seq<Route>, rt: seq<Route>, visited: seq<bool>)
    requires v.Valid()
  {
    && |visited| >= |v.ids| && visited[0]
    && Settled(|v.ids|, v.dist, visited)
    && direct <= rt
    && RoutesOk(v, direct, rt)
    && Unique(rt, |direct|)
    && DonePresent(v, rt, visited)
  }

  ghost predicate RoutesOk(v: View, direct: seq<Route>, rt: seq<Route>)
    requires v.Valid()
  {
    forall i {:trigger v.RouteOk(rt[i])} :: |direct| <= i < |rt| ==> v.RouteOk(rt[i])
  }

  ghost predicate DonePresent(v: View, rt: seq<Route>, visited: seq<bool>)
    requires v.Valid() && |visited| >= |v.ids|
  {
    forall b: nat :: 0 < b < |v.ids| && visited[b] && v.Gateway(b).Some? ==> AllPresent(rt, v.db[b - 1].lsas)
  }

  lemma PresentKept(rt: seq<Route>, after: seq<Route>, lsas: seq<Lsa>)
    requires rt <= after && AllPresent(rt, lsas)
    ensures AllPresent(after, lsas)
  {
    forall i | 0 <= i < |lsas| ensures HasRoute(after, lsas[i].network, lsas[i].mask) {
      var k :| 0 <= k < |rt| && rt[k].dest == lsas[i].network && rt[k].mask == lsas[i].mask;
      assert after[k] == rt[k];
    }
  }

  /** A network that is new when `t` is handled has `t` as a nearest advertiser. */
  lemma NewIsNearest(v: View, rt: seq<Route>, visited: seq<bool>, t: nat, network: nat, mask: nat)
    requires v.Valid() && |visited| >= |v.ids| && DonePresent(v, rt, visited)
    requires 0 < t < |v.ids| && v.Gateway(t).Some? && v.Advertises(t, network, mask)
    requires forall w: nat :: w < |v.ids| && !visited[w] ==> v.dist[t] <= v.dist[w]
    requires !HasRoute(rt, network, mask)
    ensures v.Nearest(t, network, mask)
  {
    forall b: nat | 0 < b < |v.ids| && v.Advertises(b, network, mask) && v.Gateway(b).Some?
      ensures v.dist[t] <= v.dist[b]
    {
      PresentCovers(rt, v.db[b - 1].lsas, network, mask);
    }
  }

  /** The next hop of an unvisited router, unless it is that router itself, was handled before. */
  lemma HopWasVisited(v: View, visited: seq<bool>, t: nat)
    requires v.Valid() && |visited| >= |v.ids| && 0 < t < |v.ids| && !visited[t]
    requires forall w: nat :: w < |v.ids| && !visited[w] ==> v.dist[t] <= v.dist[w]
    ensures v.Hop(t) == t || visited[v.Hop(t)]
    ensures v.Gateway(v.Hop(t)) == v.Gateway(t)
  {
    HopOfHop(v, t);
    if v.Hop(t) != t {
      assert v.dist[t] > 1 by {
        assert v.prev[t] != 0;
        assert v.dist[t] == v.dist[v.prev[t]] + 1;
      }
    }
  }

  lemma NewRoutesOk(v: View, direct: seq<Route>, rt: seq<Route>, visited: seq<bool>, t: nat, iface: nat, gw: nat)
    requires v.Valid() && |visited| >= |v.ids| && DonePresent(v, rt, visited)
    requires RoutesOk(v, direct, rt) && Unique(rt, |direct|) && direct <= rt
    requires 0 < t < |v.ids| && v.Gateway(t) == Some((iface, gw))
    requires forall w: nat :: w < |v.ids| && !visited[w] ==> v.dist[t] <= v.dist[w]
    ensures var after := AddRoutes(rt, v.db[t - 1].lsas, |v.db[t - 1].lsas|, gw, iface);
            RoutesOk(v, direct, after) && Unique(after, |direct|)
  {
    var lsas := v.db[t - 1].lsas;
    var after := AddRoutes(rt, lsas, |lsas|, gw, iface);
    AddRoutesProvides(rt, lsas, |lsas|, gw, iface);
    AddRoutesAreNew(rt, lsas, |lsas|, gw, iface);
    FindNeighborLeads(v.ifaces, v.ids[v.Hop(t)], 0);
    forall j | |direct| <= j < |after|
      ensures v.RouteOk(after[j]) && !HasRoute(after[..j], after[j].dest, after[j].mask)
    {
      if j < |rt| {
        assert after[j] == rt[j] && after[..j] == rt[..j];
      } else {
        PrefixRoute(rt, after, j, after[j].dest, after[j].mask);
        assert v.Advertises(t, after[j].dest, after[j].mask);
        NewIsNearest(v, rt, visited, t, after[j].dest, after[j].mask);
      }
    }
  }

  lemma NewDonePresent(v: View, rt: seq<Route>, visited: seq<bool>, t: nat, iface: nat, gw: nat)
    requires v.Valid() && |visited| >= |v.ids| && DonePresent(v, rt, visited) && 0 < t < |v.ids|
    ensures var after := AddRoutes(rt, v.db[t - 1].lsas, |v.db[t - 1].lsas|, gw, iface);
            DonePresent(v, after, visited[t := true])
  {
    var lsas := v.db[t - 1].lsas;
    var after := AddRoutes(rt, lsas, |lsas|, gw, iface);
    AddRoutesProvides(rt, lsas, |lsas|, gw, iface);
    forall b: nat | 0 < b < |v.ids| && visited[t := true][b] && v.Gateway(b).Some?
      ensures AllPresent(after, v.db[b - 1].lsas)
    {
      if b != t {
        PresentKept(rt, after, v.db[b - 1].lsas);
      }
    }
  }

  lemma HandleOne(v: View, direct: seq<Route>, rt: seq<Route>, visited: seq<bool>, t: nat)
    requires v.Valid() && Partial(v, direct, rt, visited)
    requires 0 < t < |v.ids| && !visited[t]
    requires forall w: nat :: w < |v.ids| && !visited[w] ==> v.dist[t] <= v.dist[w]
    ensures Partial(v, direct, Handled(v, t, rt), visited[t := true])
  {
    match v.Gateway(t)
    case None =>
      assert DonePresent(v, rt, visited[t := true]);
    case Some((iface, gw)) =>
      NewRoutesOk(v, direct, rt, visited, t, iface, gw);
      NewDonePresent(v, rt, visited, t, iface, gw);
      AddRoutesProvides(rt, v.db[t - 1].lsas, |v.db[t - 1].lsas|, gw, iface);
  }

  /** One run of the thread's body, every router of the database being reachable. */
  method GenerateTable(self: nat, db: seq<DbEntry>, ifaces: seq<seq<Neighbor>>, rt0: seq<Route>,
                       routerList: array<nat>, graph: array2<int>, prev: array<int>, dist: array<int>)
    returns (rt: seq<Route>)
    requires Closed(self, db) && Distinct(RouterIds(self, db))
    requires forall u: nat :: u <= |db| ==> Reachable(DbLinks(self, db, |db|), u)
    requires prev != dist && |db| + 1 <= prev.Length == dist.Length && |db| + 1 <= routerList.Length
    requires |db| + 1 <= graph.Length0 && |db| + 1 <= graph.Length1
    modifies routerList, graph, prev, dist
    ensures Shortest(DbLinks(self, db, |db|), |db| + 1, dist[..], prev[..])
    ensures var v := View(RouterIds(self, db), db, ifaces, dist[..], prev[..]);
            v.Valid() && v.TableOk(Direct(rt0), rt)
  {
    var num := InitGraph(self, db, routerList, graph);
    Dijkstra.Dijkstra(graph, num, prev, dist);
    ghost var v := View(RouterIds(self, db), db, ifaces, dist[..], prev[..]);
    ReachedIsValid(self, db, ifaces, dist[..], prev[..]);
    rt := RemoveGatewayRoutes(rt0);
    rt := InstallAll(v, db, ifaces, num, routerList, prev, dist, rt);
  }

  /** Within 126 hops of this router. */
  ghost predicate Reachable(e: Edges, u: nat) {
    exists k: nat :: k < INT8_MAX && Reaches(e, 0, u, k)
  }

  lemma ShortestIsTree(e: Edges, n: nat, dist: seq<int>, prev: seq<int>)
    requires Shortest(e, n, dist, prev)
    ensures TreeShape(dist, prev, n)
  {
  }

  lemma ReachedIsNear(e: Edges, n: nat, dist: seq<int>, prev: seq<int>, u: nat)
    requires Shortest(e, n, dist, prev) && u < n && Reachable(e, u)
    ensures dist[u] < INT8_MAX && (u > 0 ==> dist[u] > 0)
  {
    assert Reaches(e, 0, u, 0) <==> u == 0;
  }

  lemma AllNear(e: Edges, n: nat, dist: seq<int>, prev: seq<int>)
    requires Shortest(e, n, dist, prev) && forall u: nat :: u < n ==> Reachable(e, u)
    ensures forall v: nat :: v < n ==> dist[v] < INT8_MAX && (v > 0 ==> dist[v] > 0)
  {
    forall u: nat | u < n ensures dist[u] < INT8_MAX && (u > 0 ==> dist[u] > 0) {
      ReachedIsNear(e, n, dist, prev, u);
    }
  }

  lemma IdsFollowDb(self: nat, db: seq<DbEntry>)
    ensures forall j :: 0 < j < |RouterIds(self, db)| ==> RouterIds(self, db)[j] == db[j - 1].rid
  {
  }

  lemma ViewIsValid(v: View)
    requires |v.ids| == |v.db| + 1 && Distinct(v.ids) && TreeShape(v.dist, v.prev, |v.ids|)
    requires forall j :: 0 < j < |v.ids| ==> v.ids[j] == v.db[j - 1].rid
    requires forall u: nat :: u < |v.ids| ==> v.dist[u] < INT8_MAX && (u > 0 ==> v.dist[u] > 0)
    ensures v.Valid()
  {
  }

  lemma ReachedIsValid(self: nat, db: seq<DbEntry>, ifaces: seq<seq<Neighbor>>, dist: seq<int>, prev: seq<int>)
    requires Closed(self, db) && Distinct(RouterIds(self, db))
    requires forall u: nat :: u <= |db| ==> Reachable(DbLinks(self, db, |db|), u)
    requires Shortest(DbLinks(self, db, |db|), |db| + 1, dist, prev)
    ensures View(RouterIds(self, db), db, ifaces, dist, prev).Valid()
  {
    ShortestIsTree(DbLinks(self, db, |db|), |db| + 1, dist, prev);
    AllNear(DbLinks(self, db, |db|), |db| + 1, dist, prev);
    IdsFollowDb(self, db);
    ViewIsValid(View(RouterIds(self, db), db, ifaces, dist, prev));
  }

  method InstallAll(ghost v: View, db: seq<DbEntry>, ifaces: seq<seq<Neighbor>>, num: nat, routerList: array<nat>,
                    prev: array<int>, dist: array<int>, direct: seq<Route>) returns (rt: seq<Route>)
    requires v.Valid() && v.db == db && v.ifaces == ifaces && num == |v.ids|
    requires num <= routerList.Length && routerList[..num] == v.ids
    requires num <= prev.Length == dist.Length && v.prev == prev[..] && v.dist == dist[..]
    ensures v.TableOk(direct, rt)
  {
    rt := direct;
    var visited := new bool[num](i => i == 0);
    ghost var vs := visited[..];
    FirstVisited(vs, num);
    for i := 0 to num - 1
      invariant visited[..] == vs && |vs| == num
      invariant Partial(v, direct, rt, vs)
      invariant |Unvisited(vs, num)| == num - 1 - i
    {
      var t := MinDist(dist, visited, num);
      assert t > 0 by {
        var w := SomeUnvisited(vs, num);
        assert !visited[w];
        assert visited[0] == vs[0];
      }
      assert forall w: nat :: w < num && !vs[w] ==> !visited[w] && v.dist[t] <= v.dist[w];
      HopWasVisited(v, vs, t);
      HandleOne(v, direct, rt, vs, t);
      VisitOne(vs, num, t);
      visited[t] := true;
      rt := ForRouter(v, db, ifaces, routerList, prev, t, rt);
      vs := vs[t := true];
    }
    AllVisited(vs, num);
  }

  lemma FirstVisited(visited: seq<bool>, n: nat)
    requires 0 < n <= |visited| && forall k :: 0 <= k < n ==> visited[k] == (k == 0)
    ensures |Unvisited(visited, n)| == n - 1
  {
    NoneVisited(visited[0 := false], n);
    VisitOne(visited[0 := false], n, 0);
    assert visited[0 := false][0 := true] == visited;
  }
}
