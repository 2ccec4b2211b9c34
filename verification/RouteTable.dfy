/**
 init_graph and the body of generate_rtable_thread: from a link-state database
 to a routing table, for one router.
 */
module RouteTable {
  import opened Common
  import opened Hops
  import opened Dijkstra

  /** One advertisement: a network, and the neighbour reached through it (0 for none). */
  datatype Lsa = Lsa(network: nat, mask: nat, rid: nat)

  datatype DbEntry = DbEntry(rid: nat, lsas: seq<Lsa>)

  datatype Neighbor = Neighbor(id: nat, ip: nat)

  /** `gw == 0` marks a directly attached network. */
  datatype Route = Route(dest: nat, mask: nat, gw: nat, iface: nat)

  /** router_list: this router first, then the database in order. */
  function RouterIds(self: nat, db: seq<DbEntry>): (ids: seq<nat>)
    ensures |ids| == |db| + 1
  {
    [self] + seq(|db|, i requires 0 <= i < |db| => db[i].rid)
  }

  /** locate_entry */
  function Locate(ids: seq<nat>, rid: nat): (i: int)
    ensures -1 <= i < |ids|
    ensures i >= 0 ==> ids[i] == rid
    ensures i == -1 <==> rid !in ids
  {
    if ids == [] then -1
    else if ids[0] == rid then 0
    else
      var i := Locate(ids[1..], rid);
      if i == -1 then -1 else i + 1
  }

  method LocateEntry(routerList: array<nat>, num: nat, rid: nat) returns (i: int)
    requires num <= routerList.Length
    ensures i == Locate(routerList[..num], rid)
  {
    for k := 0 to num
      invariant Locate(routerList[..num], rid) ==
                var j := Locate(routerList[k..num], rid); if j == -1 then -1 else j + k
    {
      assert routerList[k..num][0] == routerList[k] && routerList[k..num][1..] == routerList[k + 1..num];
      if routerList[k] == rid {
        return k;
      }
    }
    return -1;
  }

  /** The links one entry's first `i` advertisements record, both ways. */
  function LsaLinks(ids: seq<nat>, u: nat, lsas: seq<Lsa>, i: nat): Edges
    requires i <= |lsas| && forall k :: 0 <= k < i && lsas[k].rid != 0 ==> lsas[k].rid in ids
  {
    if i == 0 then {}
    else LsaLinks(ids, u, lsas, i - 1)
         + if lsas[i - 1].rid == 0 then {}
           else {(u, Locate(ids, lsas[i - 1].rid) as nat), (Locate(ids, lsas[i - 1].rid) as nat, u)}
  }

  /** Every router that is advertised has an entry. */
  ghost predicate Closed(self: nat, db: seq<DbEntry>) {
    forall k, i :: 0 <= k < |db| && 0 <= i < |db[k].lsas| && db[k].lsas[i].rid != 0 ==>
      db[k].lsas[i].rid in RouterIds(self, db)
  }

  /** The links the first `k` entries record. */
  ghost function DbLinks(self: nat, db: seq<DbEntry>, k: nat): Edges
    requires k <= |db| && Closed(self, db)
  {
    if k == 0 then {}
    else
      var ids := RouterIds(self, db);
      assert ids[k] == db[k - 1].rid;
      DbLinks(self, db, k - 1) + LsaLinks(ids, Locate(ids, db[k - 1].rid), db[k - 1].lsas, |db[k - 1].lsas|)
  }

  /** init_graph */
  method InitGraph(self: nat, db: seq<DbEntry>, routerList: array<nat>, graph: array2<int>) returns (num: nat)
    requires Closed(self, db)
    requires |db| + 1 <= routerList.Length && |db| + 1 <= graph.Length0 && |db| + 1 <= graph.Length1
    modifies routerList, graph
    ensures num == |db| + 1 && routerList[..num] == RouterIds(self, db)
    ensures UnitGraph(graph, num) && Links(graph, num) == DbLinks(self, db, |db|)
  {
    ClearGraph(graph);
    num := ListRouters(self, db, routerList);
    ghost var ids := RouterIds(self, db);
    assert Links(graph, num) == {};
    for k := 0 to |db|
      invariant routerList[..num] == ids && UnitGraph(graph, num)
      invariant Links(graph, num) == DbLinks(self, db, k)
    {
      assert ids[k + 1] == db[k].rid;
      var u := LocateEntry(routerList, num, db[k].rid);
      AddEntryLinks(self, db, k, routerList, graph, num, u);
    }
  }

  method ListRouters(self: nat, db: seq<DbEntry>, routerList: array<nat>) returns (num: nat)
    requires |db| + 1 <= routerList.Length
    modifies routerList
    ensures num == |db| + 1 && routerList[..num] == RouterIds(self, db)
  {
    ghost var ids := RouterIds(self, db);
    routerList[0] := self;
    num := 1;
    for k := 0 to |db|
      invariant num == k + 1 && routerList[..num] == ids[..num]
    {
      routerList[num] := db[k].rid;
      num := num + 1;
      assert routerList[..num] == routerList[..num - 1] + [db[k].rid] && ids[..num] == ids[..num - 1] + [ids[num - 1]];
    }
    assert ids[..num] == ids;
  }

  /** The links of one database entry. */
  method AddEntryLinks(self: nat, db: seq<DbEntry>, k: nat, routerList: array<nat>, graph: array2<int>, num: nat,
                       u: nat)
    requires Closed(self, db) && k < |db| && num == |db| + 1 <= routerList.Length
    requires routerList[..num] == RouterIds(self, db) && UnitGraph(graph, num) && u < num
    modifies graph
    ensures UnitGraph(graph, num)
    ensures Links(graph, num) ==
            old(Links(graph, num)) + LsaLinks(RouterIds(self, db), u, db[k].lsas, |db[k].lsas|)
  {
    ghost var ids := RouterIds(self, db);
    for i := 0 to |db[k].lsas|
      invariant UnitGraph(graph, num) && routerList[..num] == ids
      invariant Links(graph, num) == old(Links(graph, num)) + LsaLinks(ids, u, db[k].lsas, i)
    {
      if db[k].lsas[i].rid != 0 {
        var v := LocateEntry(routerList, num, db[k].lsas[i].rid);
        AddLink(graph, num, u, v);
      }
    }
  }

  /** memset to INT8_MAX - 1 in every byte. */
  method ClearGraph(graph: array2<int>)
    modifies graph
    ensures forall u, v :: 0 <= u < graph.Length0 && 0 <= v < graph.Length1 ==> graph[u, v] == FAR
  {
    for u := 0 to graph.Length0
      invariant forall x, y :: 0 <= x < u && 0 <= y < graph.Length1 ==> graph[x, y] == FAR
    {
      for v := 0 to graph.Length1
        invariant forall x, y :: 0 <= x < u && 0 <= y < graph.Length1 ==> graph[x, y] == FAR
        invariant forall y :: 0 <= y < v ==> graph[u, y] == FAR
      {
        graph[u, v] := FAR;
      }
    }
  }

  method AddLink(graph: array2<int>, num: nat, u: nat, v: nat)
    requires UnitGraph(graph, num) && u < num && v < num
    modifies graph
    ensures UnitGraph(graph, num) && Links(graph, num) == old(Links(graph, num)) + {(u, v), (v, u)}
  {
    graph[v, u] := 1;
    graph[u, v] := graph[v, u];
  }

  // ---------------------------------------------------------------- the next hop

  /** The first router after 0 on the tree path to `t`. */
  function NextHop(dist: seq<int>, prev: seq<int>, n: nat, t: nat): (h: nat)
    requires TreeShape(dist, prev, n) && 0 < t < n && dist[t] < INT8_MAX
    ensures 0 < h < n && prev[h] == 0 && dist[h] == 1
    decreases dist[t]
  {
    if prev[t] == 0 then t else NextHop(dist, prev, n, prev[t])
  }

  /** What the walk along prev relies on. */
  ghost predicate TreeShape(dist: seq<int>, prev: seq<int>, n: nat) {
    && 0 < n <= |dist| && n <= |prev| && dist[0] == 0
    && (forall v: nat :: v < n ==> 0 <= dist[v] <= INT8_MAX)
    && forall v: nat {:trigger prev[v]} :: 0 < v < n && dist[v] < INT8_MAX ==>
         0 <= prev[v] < n && dist[v] == dist[prev[v]] + 1
  }

  method FollowPrev(prev: array<int>, ghost dist: seq<int>, n: nat, t0: nat) returns (t: nat)
    requires n <= prev.Length && TreeShape(dist, prev[..], n) && 0 < t0 < n && dist[t0] < INT8_MAX
    ensures t == NextHop(dist, prev[..], n, t0)
  {
    t := t0;
    while prev[t] != 0
      invariant 0 < t < n && dist[t] < INT8_MAX
      invariant NextHop(dist, prev[..], n, t) == NextHop(dist, prev[..], n, t0)
      decreases dist[t]
    {
      assert prev[..][t] == prev[t];
      t := prev[t];
    }
    assert prev[..][t] == prev[t];
  }

  /** The next hop is a neighbour on a shortest path to `t`. */
  lemma {:induction false} NextHopIsOnPath(e: Edges, dist: seq<int>, prev: seq<int>, n: nat, t: nat)
    requires Shortest(e, n, dist, prev) && TreeShape(dist, prev, n) && 0 < t < n && dist[t] < INT8_MAX
    ensures (0, NextHop(dist, prev, n, t)) in e
    ensures Reaches(e, NextHop(dist, prev, n, t), t, dist[t] - 1)
    decreases dist[t]
  {
    if prev[t] == 0 {
    } else {
      NextHopIsOnPath(e, dist, prev, n, prev[t]);
      OneHop(e, prev[t], t);
      Concat(e, NextHop(dist, prev, n, t), prev[t], t, dist[t] - 2, 1);
    }
  }

  // ---------------------------------------------------------------- installing routes

  predicate HasRoute(rt: seq<Route>, network: nat, mask: nat) {
    exists i :: 0 <= i < |rt| && rt[i].dest == network && rt[i].mask == mask
  }

  /** Adding routes to the first `i` networks of `lsas` that have none yet. */
  function AddRoutes(rt: seq<Route>, lsas: seq<Lsa>, i: nat, gw: nat, iface: nat): seq<Route>
    requires i <= |lsas|
  {
    if i == 0 then rt
    else
      var before := AddRoutes(rt, lsas, i - 1, gw, iface);
      if HasRoute(before, lsas[i - 1].network, lsas[i - 1].mask) then before
      else before + [Route(lsas[i - 1].network, lsas[i - 1].mask, gw, iface)]
  }

  /** Which interface and address lead to router `id`, if it is a neighbour. */
  function FindNeighbor(ifaces: seq<seq<Neighbor>>, id: nat, from: nat): (r: Option<(nat, nat)>)
    requires from <= |ifaces|
    decreases |ifaces| - from
  {
    if from == |ifaces| then None
    else match FindOn(ifaces[from], id)
      case Some(ip) => Some((from, ip))
      case None => FindNeighbor(ifaces, id, from + 1)
  }

  function FindOn(nbrs: seq<Neighbor>, id: nat): Option<nat> {
    if nbrs == [] then None
    else if nbrs[0].id == id then Some(nbrs[0].ip)
    else FindOn(nbrs[1..], id)
  }

  /** The first entry of router `id` in the list has address `ip`. */
  ghost predicate HeardOn(nbrs: seq<Neighbor>, id: nat, ip: nat) {
    exists j :: 0 <= j < |nbrs| && nbrs[j] == Neighbor(id, ip) && forall l :: 0 <= l < j ==> nbrs[l].id != id
  }

  predicate Silent(nbrs: seq<Neighbor>, id: nat) {
    forall j :: 0 <= j < |nbrs| ==> nbrs[j].id != id
  }

  /** Router `id` is heard on interface `iface`, with address `gw`, and on no earlier one. */
  ghost predicate LeadsTo(ifaces: seq<seq<Neighbor>>, iface: nat, gw: nat, id: nat) {
    && iface < |ifaces| && HeardOn(ifaces[iface], id, gw)
    && forall i :: 0 <= i < iface ==> Silent(ifaces[i], id)
  }

  lemma {:induction false} FindOnHears(nbrs: seq<Neighbor>, id: nat)
    ensures FindOn(nbrs, id).None? <==> Silent(nbrs, id)
    ensures FindOn(nbrs, id).Some? ==> HeardOn(nbrs, id, FindOn(nbrs, id).value)
  {
    if nbrs != [] && nbrs[0].id != id {
      var rest := nbrs[1..];
      FindOnHears(rest, id);
      assert forall j :: 0 < j < |nbrs| ==> nbrs[j] == rest[j - 1];
      if FindOn(rest, id).Some? {
        var j :| 0 <= j < |rest| && rest[j] == Neighbor(id, FindOn(rest, id).value)
          && forall l :: 0 <= l < j ==> rest[l].id != id;
        assert nbrs[j + 1] == rest[j];
      } else {
        forall j | 0 <= j < |nbrs| ensures nbrs[j].id != id {
          assert j > 0 ==> rest[j - 1].id != id;
        }
      }
    }
  }

  lemma {:induction false} FindNeighborLeads(ifaces: seq<seq<Neighbor>>, id: nat, from: nat)
    requires from <= |ifaces| && forall i :: 0 <= i < from ==> Silent(ifaces[i], id)
    ensures FindNeighbor(ifaces, id, from).None? <==> forall i :: 0 <= i < |ifaces| ==> Silent(ifaces[i], id)
    ensures FindNeighbor(ifaces, id, from).Some? ==>
              LeadsTo(ifaces, FindNeighbor(ifaces, id, from).value.0, FindNeighbor(ifaces, id, from).value.1, id)
    decreases |ifaces| - from
  {
    if from < |ifaces| {
      FindOnHears(ifaces[from], id);
      if FindOn(ifaces[from], id).None? {
        FindNeighborLeads(ifaces, id, from + 1);
      }
    }
  }

  /** The first interface on which router `id` is heard, and its address there. */
  method FindGateway(ifaces: seq<seq<Neighbor>>, id: nat) returns (find: bool, iface: nat, gw: nat)
    ensures find ==> LeadsTo(ifaces, iface, gw, id)
    ensures !find <==> forall i :: 0 <= i < |ifaces| ==> Silent(ifaces[i], id)
    ensures FindNeighbor(ifaces, id, 0) == if find then Some((iface, gw)) else None
  {
    FindNeighborLeads(ifaces, id, 0);
    find, iface, gw := false, 0, 0;
    while iface < |ifaces|
      invariant iface <= |ifaces| && FindNeighbor(ifaces, id, 0) == FindNeighbor(ifaces, id, iface)
    {
      var j := 0;
      while j < |ifaces[iface]|
        invariant j <= |ifaces[iface]| && FindOn(ifaces[iface], id) == FindOn(ifaces[iface][j..], id)
      {
        if ifaces[iface][j].id == id {
          return true, iface, ifaces[iface][j].ip;
        }
        assert ifaces[iface][j..][1..] == ifaces[iface][j + 1..];
        j := j + 1;
      }
      iface := iface + 1;
    }
  }

  predicate IsDirect(r: Route) {
    r.gw == 0
  }

  function Direct(rt: seq<Route>): (d: seq<Route>)
    ensures forall r :: r in d <==> r in rt && IsDirect(r)
  {
    if rt == [] then []
    else if IsDirect(rt[0]) then [rt[0]] + Direct(rt[1..]) else Direct(rt[1..])
  }

  /** Filtering takes each part of a table by itself, so it keeps the order and every copy. */
  lemma {:induction false} DirectOfParts(a: seq<Route>, b: seq<Route>)
    ensures Direct(a + b) == Direct(a) + Direct(b)
    ensures |a| == 1 ==> Direct(a) == if a[0].gw == 0 then a else []
  {
    if a == [] {
      assert a + b == b;
    } else {
      assert (a + b)[0] == a[0] && (a + b)[1..] == a[1..] + b;
      DirectOfParts(a[1..], b);
    }
  }

  method RemoveGatewayRoutes(rt: seq<Route>) returns (d: seq<Route>)
    ensures d == Direct(rt)
  {
    d := [];
    var i := 0;
    while i < |rt|
      invariant i <= |rt| && Direct(rt) == d + Direct(rt[i..])
    {
      assert rt[i..][1..] == rt[i + 1..];
      if rt[i].gw == 0 {
        d := d + [rt[i]];
      }
      i := i + 1;
    }
  }

  method InstallRoutes(rt0: seq<Route>, lsas: seq<Lsa>, gw: nat, iface: nat) returns (rt: seq<Route>)
    ensures rt == AddRoutes(rt0, lsas, |lsas|, gw, iface)
  {
    rt := rt0;
    for i := 0 to |lsas|
      invariant rt == AddRoutes(rt0, lsas, i, gw, iface)
    {
      var find := false;
      for j := 0 to |rt|
        invariant find <==> exists k :: 0 <= k < j && rt[k].dest == lsas[i].network && rt[k].mask == lsas[i].mask
      {
        if rt[j].dest == lsas[i].network && rt[j].mask == lsas[i].mask {
          find := true;
          break;
        }
      }
      if !find {
        rt := rt + [Route(lsas[i].network, lsas[i].mask, gw, iface)];
      }
    }
  }
}
