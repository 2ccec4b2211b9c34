/**
 Routers that share one symmetric link-state database and have each built their
 table from it: a packet comes one hop closer to its network at every router.
 */
module Forwarding {
  import opened Common
  import opened Hops
  import opened Dijkstra
  import opened RouteTable
  import opened RouteInstall

  /** One router: the view its table was built from, the routes it had before, and the table. */
  datatype Router = Router(view: View, direct: seq<Route>, table: seq<Route>)

  /** `lsdb` gives what each router advertises, `owner` the router that holds an address. */
  datatype Network = Network(lsdb: map<nat, seq<Lsa>>, routers: map<nat, Router>, owner: map<nat, nat>)

  predicate ListsRouter(lsas: seq<Lsa>, id: nat) {
    exists i :: 0 <= i < |lsas| && lsas[i].rid == id
  }

  /** Two routers are linked when one lists the other. */
  ghost function RidLinks(lsdb: map<nat, seq<Lsa>>): Edges {
    set a, b | a in lsdb && b in lsdb && (ListsRouter(lsdb[a], b) || ListsRouter(lsdb[b], a)) :: (a, b)
  }

  ghost predicate SymmetricDb(lsdb: map<nat, seq<Lsa>>) {
    && 0 !in lsdb
    && (forall a, i :: a in lsdb && 0 <= i < |lsdb[a]| && lsdb[a][i].rid != 0 ==>
          lsdb[a][i].rid in lsdb && lsdb[a][i].rid != a)
    && forall a, b {:trigger ListsRouter(lsdb[a], b)} :: a in lsdb && b in lsdb && ListsRouter(lsdb[a], b) ==>
         ListsRouter(lsdb[b], a)
  }

  /** Router `self` holds the entries of all others, in some order. */
  ghost predicate Shared(lsdb: map<nat, seq<Lsa>>, self: nat, db: seq<DbEntry>) {
    && self in lsdb
    && Distinct(RouterIds(self, db))
    && (forall k :: 0 <= k < |db| ==> db[k].rid in lsdb && db[k].lsas == lsdb[db[k].rid])
    && forall r {:trigger r in RouterIds(self, db)} :: r in lsdb ==> r in RouterIds(self, db)
  }

  lemma SharedIsClosed(lsdb: map<nat, seq<Lsa>>, self: nat, db: seq<DbEntry>)
    requires SymmetricDb(lsdb) && Shared(lsdb, self, db)
    ensures Closed(self, db)
  {
  }

  // ---------------------------------------------------------------- one graph seen from every router

  lemma {:induction false} LsaLinksExact(ids: seq<nat>, u: nat, lsas: seq<Lsa>, i: nat, x: nat, y: nat)
    requires i <= |lsas| && forall k :: 0 <= k < i && lsas[k].rid != 0 ==> lsas[k].rid in ids
    requires Distinct(ids) && x < |ids| && y < |ids| && u < |ids|
    ensures (x, y) in LsaLinks(ids, u, lsas, i) <==>
            || (x == u && ids[y] != 0 && ListsRouter(lsas[..i], ids[y]))
            || (y == u && ids[x] != 0 && ListsRouter(lsas[..i], ids[x]))
  {
    if i > 0 {
      LsaLinksExact(ids, u, lsas, i - 1, x, y);
      ListsOneMore(lsas, i - 1, ids[x]);
      ListsOneMore(lsas, i - 1, ids[y]);
      if lsas[i - 1].rid != 0 {
        LocateIsPosition(ids, lsas[i - 1].rid, x);
        LocateIsPosition(ids, lsas[i - 1].rid, y);
      }
    }
  }

  lemma ListsOneMore(lsas: seq<Lsa>, i: nat, id: nat)
    requires i < |lsas|
    ensures ListsRouter(lsas[..i + 1], id) <==> ListsRouter(lsas[..i], id) || lsas[i].rid == id
  {
    assert lsas[..i + 1][i] == lsas[i];
    assert forall k :: 0 <= k < i ==> lsas[..i + 1][k] == lsas[..i][k];
  }

  lemma LocateIsPosition(ids: seq<nat>, rid: nat, x: nat)
    requires Distinct(ids) && x < |ids| && rid in ids
    ensures Locate(ids, rid) == x <==> ids[x] == rid
  {
  }

  lemma {:induction false} LsaLinksInside(ids: seq<nat>, u: nat, lsas: seq<Lsa>, i: nat)
    requires i <= |lsas| && (forall k :: 0 <= k < i && lsas[k].rid != 0 ==> lsas[k].rid in ids) && u < |ids|
    ensures forall p :: p in LsaLinks(ids, u, lsas, i) ==> p.0 < |ids| && p.1 < |ids|
  {
    if i > 0 {
      LsaLinksInside(ids, u, lsas, i - 1);
    }
  }

  /** Every router that `lsas` lists has a position. */
  ghost predicate Known(ids: seq<nat>, lsas: seq<Lsa>) {
    forall i :: 0 <= i < |lsas| && lsas[i].rid != 0 ==> lsas[i].rid in ids
  }

  /** The `k`-th entry, advertising `lsas`, links `x` and `y`. */
  ghost predicate EntryLinked(ids: seq<nat>, lsas: seq<Lsa>, k: nat, x: nat, y: nat)
    requires x < |ids| && y < |ids|
  {
    (x == k && ListsRouter(lsas, ids[y])) || (y == k && ListsRouter(lsas, ids[x]))
  }

  lemma EntryLinksExact(ids: seq<nat>, lsas: seq<Lsa>, k: nat, x: nat, y: nat)
    requires Distinct(ids) && 0 !in ids && k < |ids| && x < |ids| && y < |ids| && Known(ids, lsas)
    ensures (x, y) in LsaLinks(ids, k, lsas, |lsas|) <==> EntryLinked(ids, lsas, k, x, y)
  {
    LsaLinksExact(ids, k, lsas, |lsas|, x, y);
    assert lsas[..|lsas|] == lsas;
  }

  lemma DbLinksStep(self: nat, db: seq<DbEntry>, k: nat)
    requires Closed(self, db) && Distinct(RouterIds(self, db)) && 0 < k <= |db|
    ensures Known(RouterIds(self, db), db[k - 1].lsas)
    ensures DbLinks(self, db, k) ==
            DbLinks(self, db, k - 1) + LsaLinks(RouterIds(self, db), k, db[k - 1].lsas, |db[k - 1].lsas|)
  {
    var ids := RouterIds(self, db);
    assert ids[k] == db[k - 1].rid;
    LocateIsPosition(ids, db[k - 1].rid, k);
  }

  /** One of the first `k` entries links `x` and `y`. */
  ghost predicate DbLinked(ids: seq<nat>, db: seq<DbEntry>, k: nat, x: nat, y: nat)
    requires k <= |db| && x < |ids| && y < |ids|
  {
    (0 < x <= k && ListsRouter(db[x - 1].lsas, ids[y])) || (0 < y <= k && ListsRouter(db[y - 1].lsas, ids[x]))
  }

  lemma DbLinkedStep(ids: seq<nat>, db: seq<DbEntry>, k: nat, x: nat, y: nat)
    requires 0 < k <= |db| && x < |ids| && y < |ids|
    ensures DbLinked(ids, db, k, x, y) <==> DbLinked(ids, db, k - 1, x, y) || EntryLinked(ids, db[k - 1].lsas, k, x, y)
  {
  }

  lemma DbLinksExactStep(self: nat, db: seq<DbEntry>, k: nat, x: nat, y: nat)
    requires Closed(self, db) && Distinct(RouterIds(self, db)) && 0 !in RouterIds(self, db)
    requires 0 < k <= |db| && x <= |db| && y <= |db|
    requires (x, y) in DbLinks(self, db, k - 1) <==> DbLinked(RouterIds(self, db), db, k - 1, x, y)
    ensures (x, y) in DbLinks(self, db, k) <==> DbLinked(RouterIds(self, db), db, k, x, y)
  {
    DbLinksStep(self, db, k);
    EntryLinksExact(RouterIds(self, db), db[k - 1].lsas, k, x, y);
    DbLinkedStep(RouterIds(self, db), db, k, x, y);
  }

  lemma NoLinksYet(self: nat, db: seq<DbEntry>, x: nat, y: nat)
    requires Closed(self, db) && x <= |db| && y <= |db|
    ensures (x, y) in DbLinks(self, db, 0) <==> DbLinked(RouterIds(self, db), db, 0, x, y)
  {
  }

  lemma {:induction false} DbLinksExact(self: nat, db: seq<DbEntry>, k: nat, x: nat, y: nat)
    requires Closed(self, db) && Distinct(RouterIds(self, db)) && 0 !in RouterIds(self, db)
    requires k <= |db| && x <= |db| && y <= |db|
    ensures (x, y) in DbLinks(self, db, k) <==> DbLinked(RouterIds(self, db), db, k, x, y)
  {
    if k == 0 {
      NoLinksYet(self, db, x, y);
    } else {
      DbLinksExact(self, db, k - 1, x, y);
      DbLinksExactStep(self, db, k, x, y);
    }
  }

  lemma {:induction false} DbLinksInside(self: nat, db: seq<DbEntry>, k: nat)
    requires Closed(self, db) && k <= |db|
    ensures forall p :: p in DbLinks(self, db, k) ==> p.0 <= |db| && p.1 <= |db|
  {
    if k > 0 {
      var ids := RouterIds(self, db);
      DbLinksInside(self, db, k - 1);
      assert ids[k] == db[k - 1].rid;
      LsaLinksInside(ids, Locate(ids, db[k - 1].rid), db[k - 1].lsas, |db[k - 1].lsas|);
    }
  }

  /** `e` is the graph `f` with vertex `ids[x]` renamed to `x`. */
  ghost predicate Renames(ids: seq<nat>, e: Edges, f: Edges) {
    && Distinct(ids)
    && (forall p :: p in e ==> p.0 < |ids| && p.1 < |ids|)
    && (forall p :: p in f ==> p.0 in ids && p.1 in ids)
    && forall x: nat, y: nat {:trigger (x, y) in e} :: x < |ids| && y < |ids| ==>
         ((x, y) in e <==> (ids[x], ids[y]) in f)
  }

  lemma {:induction false} WalksOut(ids: seq<nat>, e: Edges, f: Edges, x: nat, y: nat, k: nat)
    requires Renames(ids, e, f) && x < |ids| && y < |ids| && Reaches(e, x, y, k)
    ensures Reaches(f, ids[x], ids[y], k)
    decreases k
  {
    if k > 0 {
      var w: nat :| Reaches(e, x, w, k - 1) && (w, y) in e;
      WalksOut(ids, e, f, x, w, k - 1);
      assert (ids[w], ids[y]) in f;
    }
  }

  lemma {:induction false} WalksIn(ids: seq<nat>, e: Edges, f: Edges, x: nat, y: nat, k: nat)
    requires Renames(ids, e, f) && x < |ids| && y < |ids| && Reaches(f, ids[x], ids[y], k)
    ensures Reaches(e, x, y, k)
    decreases k
  {
    if k > 0 {
      var r: nat :| Reaches(f, ids[x], r, k - 1) && (r, ids[y]) in f;
      assert r in ids;
      var w: nat :| w < |ids| && ids[w] == r;
      WalksIn(ids, e, f, x, w, k - 1);
      assert (w, y) in e;
    }
  }

  /** Distances are kept by renaming. */
  lemma SameDist(ids: seq<nat>, e: Edges, f: Edges, x: nat, y: nat, d: nat)
    requires Renames(ids, e, f) && x < |ids| && y < |ids| && IsDist(e, x, y, d)
    ensures IsDist(f, ids[x], ids[y], d)
  {
    WalksOut(ids, e, f, x, y, d);
    forall k: nat | k < d ensures !Reaches(f, ids[x], ids[y], k) {
      if Reaches(f, ids[x], ids[y], k) {
        WalksIn(ids, e, f, x, y, k);
      }
    }
  }

  lemma KnownIds(lsdb: map<nat, seq<Lsa>>, self: nat, db: seq<DbEntry>, x: nat)
    requires Shared(lsdb, self, db) && x <= |db|
    ensures RouterIds(self, db)[x] in lsdb
    ensures x > 0 ==> RouterIds(self, db)[x] == db[x - 1].rid && db[x - 1].lsas == lsdb[RouterIds(self, db)[x]]
  {
    assert x > 0 ==> RouterIds(self, db)[x] == db[x - 1].rid;
  }

  lemma ListingIsSymmetric(lsdb: map<nat, seq<Lsa>>, a: nat, b: nat)
    requires SymmetricDb(lsdb) && a in lsdb && b in lsdb
    ensures ListsRouter(lsdb[a], b) <==> ListsRouter(lsdb[b], a)
    ensures a == b ==> !ListsRouter(lsdb[a], b)
    ensures (a, b) in RidLinks(lsdb) <==> ListsRouter(lsdb[a], b)
  {
  }

  lemma LinkedEitherWay(ids: seq<nat>, db: seq<DbEntry>, x: nat, y: nat, la: seq<Lsa>, lb: seq<Lsa>)
    requires x < |ids| == |db| + 1 && y < |ids|
    requires x > 0 ==> db[x - 1].lsas == la
    requires y > 0 ==> db[y - 1].lsas == lb
    requires ListsRouter(la, ids[y]) <==> ListsRouter(lb, ids[x])
    requires x == y ==> !ListsRouter(la, ids[y])
    ensures DbLinked(ids, db, |db|, x, y) <==> ListsRouter(la, ids[y])
  {
  }

  lemma SameLink(lsdb: map<nat, seq<Lsa>>, self: nat, db: seq<DbEntry>, x: nat, y: nat)
    requires SymmetricDb(lsdb) && Shared(lsdb, self, db) && Closed(self, db) && 0 !in RouterIds(self, db)
    requires x <= |db| && y <= |db|
    ensures (x, y) in DbLinks(self, db, |db|) <==> (RouterIds(self, db)[x], RouterIds(self, db)[y]) in RidLinks(lsdb)
  {
    var ids := RouterIds(self, db);
    KnownIds(lsdb, self, db, x);
    KnownIds(lsdb, self, db, y);
    ListingIsSymmetric(lsdb, ids[x], ids[y]);
    LinkedEitherWay(ids, db, x, y, lsdb[ids[x]], lsdb[ids[y]]);
    DbLinksExact(self, db, |db|, x, y);
  }

  /** The graph any router builds is the graph of all routers, renamed: although a router's own
      advertisement is not in its database, symmetry supplies its links. */
  lemma SharedRenames(lsdb: map<nat, seq<Lsa>>, self: nat, db: seq<DbEntry>)
    requires SymmetricDb(lsdb) && Shared(lsdb, self, db) && Closed(self, db)
    ensures Renames(RouterIds(self, db), DbLinks(self, db, |db|), RidLinks(lsdb))
  {
    var ids := RouterIds(self, db);
    assert 0 !in ids by {
      forall x | 0 <= x < |ids| ensures ids[x] != 0 {
        KnownIds(lsdb, self, db, x);
      }
    }
    DbLinksInside(self, db, |db|);
    forall x: nat, y: nat | x < |ids| && y < |ids|
      ensures (x, y) in DbLinks(self, db, |db|) <==> (ids[x], ids[y]) in RidLinks(lsdb)
    {
      SameLink(lsdb, self, db, x, y);
    }
  }

  lemma PositionOf(lsdb: map<nat, seq<Lsa>>, self: nat, db: seq<DbEntry>, r: nat) returns (w: nat)
    requires Shared(lsdb, self, db) && r in lsdb && r != self
    ensures 0 < w <= |db| && RouterIds(self, db)[w] == r && db[w - 1].lsas == lsdb[r]
  {
    var ids := RouterIds(self, db);
    assert r in ids;
    w :| 0 <= w < |ids| && ids[w] == r;
    KnownIds(lsdb, self, db, w);
  }

  // ---------------------------------------------------------------- forwarding

  /** A router whose table is what GenerateTable promises, all of whose next hops are known
      neighbours, and which is attached to the networks it advertises. */
  ghost predicate Built(lsdb: map<nat, seq<Lsa>>, r: nat, router: Router) {
    var Router(v, direct, table) := router;
    && Shared(lsdb, r, v.db) && Closed(r, v.db) && v.ids == RouterIds(r, v.db)
    && Shortest(DbLinks(r, v.db, |v.db|), |v.ids|, v.dist, v.prev)
    && v.Valid() && v.TableOk(direct, table)
    && (forall t: nat :: 0 < t < |v.ids| ==> v.Gateway(t).Some?)
    && forall i :: 0 <= i < |lsdb[r]| ==> HasRoute(direct, lsdb[r][i].network, lsdb[r][i].mask)
  }

  ghost predicate RouterOk(net: Network, r: nat)
    requires r in net.routers
  {
    Built(net.lsdb, r, net.routers[r]) && NeighborsOwned(net, net.routers[r].view.ifaces)
  }

  /** Neighbour addresses belong to the routers they are filed under. */
  ghost predicate NeighborsOwned(net: Network, ifaces: seq<seq<Neighbor>>) {
    forall i, j :: 0 <= i < |ifaces| && 0 <= j < |ifaces[i]| ==>
      ifaces[i][j].ip in net.owner && net.owner[ifaces[i][j].ip] == ifaces[i][j].id
  }

  ghost predicate Converged(net: Network) {
    && SymmetricDb(net.lsdb)
    && net.routers.Keys == net.lsdb.Keys
    && forall r :: r in net.routers ==> RouterOk(net, r)
  }

  /** `a` advertises the network, is `d` hops from `r`, and no advertiser is nearer. */
  ghost predicate NearestFrom(net: Network, r: nat, a: nat, network: nat, mask: nat, d: nat) {
    && a in net.lsdb && Lists(net.lsdb[a], network, mask)
    && Reaches(RidLinks(net.lsdb), r, a, d)
    && forall b, k: nat :: b in net.lsdb && Lists(net.lsdb[b], network, mask) && k < d ==>
         !Reaches(RidLinks(net.lsdb), r, b, k)
  }

  /** `d` is the least number of hops from `r` to a router that advertises the network. */
  ghost predicate NetworkDist(net: Network, r: nat, network: nat, mask: nat, d: nat) {
    exists a :: NearestFrom(net, r, a, network, mask, d)
  }

  /** Address `gw` belongs to a router linked to `r`, one of the `d` hops to `a` further. */
  ghost predicate Towards(net: Network, r: nat, gw: nat, a: nat, d: nat) {
    && gw in net.owner && net.owner[gw] in net.lsdb
    && (r, net.owner[gw]) in RidLinks(net.lsdb)
    && d > 0 && Reaches(RidLinks(net.lsdb), net.owner[gw], a, d - 1)
  }

  /** The route hands packets to a linked router that is one hop closer to a nearest advertiser. */
  ghost predicate GoodRoute(net: Network, r: nat, route: Route) {
    exists a, d: nat :: NearestFrom(net, r, a, route.dest, route.mask, d) && Towards(net, r, route.gw, a, d)
  }

  // A router's table, read in terms of the shared database.

  lemma {:induction false} NeighborIsOwner(net: Network, ifaces: seq<seq<Neighbor>>, id: nat, from: nat)
    requires from <= |ifaces| && NeighborsOwned(net, ifaces)
    ensures var g := FindNeighbor(ifaces, id, from);
            g.Some? ==> g.value.1 in net.owner && net.owner[g.value.1] == id
    decreases |ifaces| - from
  {
    if from < |ifaces| {
      FindOnIsOwner(net, ifaces[from], id);
      NeighborIsOwner(net, ifaces, id, from + 1);
    }
  }

  lemma {:induction false} FindOnIsOwner(net: Network, nbrs: seq<Neighbor>, id: nat)
    requires forall j :: 0 <= j < |nbrs| ==> nbrs[j].ip in net.owner && net.owner[nbrs[j].ip] == nbrs[j].id
    ensures FindOn(nbrs, id).Some? ==> FindOn(nbrs, id).value in net.owner && net.owner[FindOn(nbrs, id).value] == id
  {
    if nbrs != [] {
      FindOnIsOwner(net, nbrs[1..], id);
    }
  }

  lemma NearestIsNearest(net: Network, r: nat, v: View, e: Edges, t: nat, network: nat, mask: nat)
    requires v.Valid() && Shared(net.lsdb, r, v.db) && v.ids == RouterIds(r, v.db)
    requires Renames(v.ids, e, RidLinks(net.lsdb)) && Shortest(e, |v.ids|, v.dist, v.prev)
    requires forall s: nat :: 0 < s < |v.ids| ==> v.Gateway(s).Some?
    requires v.Nearest(t, network, mask) && !Lists(net.lsdb[r], network, mask)
    ensures NearestFrom(net, r, v.ids[t], network, mask, v.dist[t])
  {
    KnownIds(net.lsdb, r, v.db, t);
    SameDist(v.ids, e, RidLinks(net.lsdb), 0, t, v.dist[t]);
    forall b, k: nat | b in net.lsdb && Lists(net.lsdb[b], network, mask) && k < v.dist[t]
      ensures !Reaches(RidLinks(net.lsdb), r, b, k)
    {
      var s := PositionOf(net.lsdb, r, v.db, b);
      assert v.Advertises(s, network, mask);
      SameDist(v.ids, e, RidLinks(net.lsdb), 0, s, v.dist[s]);
    }
  }

  lemma HopIsLinked(net: Network, r: nat, v: View, e: Edges, t: nat)
    requires v.Valid() && Shared(net.lsdb, r, v.db) && v.ids == RouterIds(r, v.db)
    requires Renames(v.ids, e, RidLinks(net.lsdb)) && Shortest(e, |v.ids|, v.dist, v.prev)
    requires 0 < t < |v.ids|
    ensures var h := v.ids[v.Hop(t)];
            && h in net.lsdb && (r, h) in RidLinks(net.lsdb)
            && v.dist[t] > 0 && Reaches(RidLinks(net.lsdb), h, v.ids[t], v.dist[t] - 1)
  {
    KnownIds(net.lsdb, r, v.db, v.Hop(t));
    RenamedHop(v.ids, e, RidLinks(net.lsdb), v.dist, v.prev, t);
  }

  lemma RenamedHop(ids: seq<nat>, e: Edges, f: Edges, dist: seq<int>, prev: seq<int>, t: nat)
    requires Renames(ids, e, f) && Shortest(e, |ids|, dist, prev) && TreeShape(dist, prev, |ids|)
    requires 0 < t < |ids| && dist[t] < INT8_MAX
    ensures var h := NextHop(dist, prev, |ids|, t);
            && (ids[0], ids[h]) in f && dist[t] > 0
            && Reaches(f, ids[h], ids[t], dist[t] - 1)
  {
    var h := NextHop(dist, prev, |ids|, t);
    NextHopIsOnPath(e, dist, prev, |ids|, t);
    WalksOut(ids, e, f, h, t, dist[t] - 1);
    assert (0, h) in e;
  }

  /** The route at position `j` leaves on an interface where the owner of its gateway is heard under
      that address. */
  ghost predicate LeavesRight(net: Network, r: nat, j: nat) {
    && r in net.routers && j < |net.routers[r].table|
    && var route := net.routers[r].table[j];
       && route.gw in net.owner
       && LeadsTo(net.routers[r].view.ifaces, route.iface, route.gw, net.owner[route.gw])
  }

  lemma HeardIsOwner(net: Network, ifaces: seq<seq<Neighbor>>, iface: nat, gw: nat, id: nat)
    requires NeighborsOwned(net, ifaces) && LeadsTo(ifaces, iface, gw, id)
    ensures gw in net.owner && net.owner[gw] == id
  {
    var j :| 0 <= j < |ifaces[iface]| && ifaces[iface][j] == Neighbor(id, gw);
    assert ifaces[iface][j].ip in net.owner;
  }

  lemma InstalledLeavesRight(net: Network, r: nat, j: nat)
    requires Converged(net) && r in net.routers
    requires |net.routers[r].direct| <= j < |net.routers[r].table|
    ensures LeavesRight(net, r, j)
  {
    var v, route := net.routers[r].view, net.routers[r].table[j];
    assert RouterOk(net, r);
    assert v.RouteOk(route);
    var a: nat :| v.Nearest(a, route.dest, route.mask) && LeadsTo(v.ifaces, route.iface, route.gw, v.ids[v.Hop(a)]);
    HeardIsOwner(net, v.ifaces, route.iface, route.gw, v.ids[v.Hop(a)]);
  }

  lemma InstalledIsGood(net: Network, r: nat, j: nat)
    requires SymmetricDb(net.lsdb) && r in net.routers && RouterOk(net, r)
    requires |net.routers[r].direct| <= j < |net.routers[r].table|
    requires !Lists(net.lsdb[r], net.routers[r].table[j].dest, net.routers[r].table[j].mask)
    ensures GoodRoute(net, r, net.routers[r].table[j])
  {
    var v, route := net.routers[r].view, net.routers[r].table[j];
    SharedRenames(net.lsdb, r, v.db);
    assert v.RouteOk(route);
    InstalledLeadsCloser(net, r, v, DbLinks(r, v.db, |v.db|), route);
  }

  lemma InstalledLeadsCloser(net: Network, r: nat, v: View, e: Edges, route: Route)
    requires v.Valid() && Shared(net.lsdb, r, v.db) && v.ids == RouterIds(r, v.db)
    requires Renames(v.ids, e, RidLinks(net.lsdb)) && Shortest(e, |v.ids|, v.dist, v.prev)
    requires forall s: nat :: 0 < s < |v.ids| ==> v.Gateway(s).Some?
    requires NeighborsOwned(net, v.ifaces)
    requires v.RouteOk(route) && !Lists(net.lsdb[r], route.dest, route.mask)
    ensures GoodRoute(net, r, route)
  {
    var t: nat :| v.Nearest(t, route.dest, route.mask) && v.Gateway(t) == Some((route.iface, route.gw));
    var a, d := v.ids[t], v.dist[t];
    assert NearestFrom(net, r, a, route.dest, route.mask, d) by {
      NearestIsNearest(net, r, v, e, t, route.dest, route.mask);
    }
    assert Towards(net, r, route.gw, a, d) by {
      GatewayIsLinked(net, r, v, e, t, route.iface, route.gw);
    }
  }

  lemma GatewayIsLinked(net: Network, r: nat, v: View, e: Edges, t: nat, iface: nat, gw: nat)
    requires v.Valid() && Shared(net.lsdb, r, v.db) && v.ids == RouterIds(r, v.db)
    requires Renames(v.ids, e, RidLinks(net.lsdb)) && Shortest(e, |v.ids|, v.dist, v.prev)
    requires 0 < t < |v.ids| && NeighborsOwned(net, v.ifaces) && v.Gateway(t) == Some((iface, gw))
    ensures Towards(net, r, gw, v.ids[t], v.dist[t])
  {
    HopIsLinked(net, r, v, e, t);
    NeighborIsOwner(net, v.ifaces, v.ids[v.Hop(t)], 0);
  }

  lemma AdvertisedHasRoute(net: Network, r: nat, v: View, direct: seq<Route>, table: seq<Route>, a: nat,
                           network: nat, mask: nat)
    requires v.Valid() && v.TableOk(direct, table) && Shared(net.lsdb, r, v.db) && v.ids == RouterIds(r, v.db)
    requires forall s: nat :: 0 < s < |v.ids| ==> v.Gateway(s).Some?
    requires a in net.lsdb && Lists(net.lsdb[a], network, mask) && a != r
    ensures HasRoute(table, network, mask)
  {
    var s := PositionOf(net.lsdb, r, v.db, a);
    assert v.Gateway(s).Some?;
    PresentCovers(table, v.db[s - 1].lsas, network, mask);
  }

  lemma OwnIsDirect(net: Network, r: nat, network: nat, mask: nat)
    requires r in net.routers && RouterOk(net, r)
    ensures Lists(net.lsdb[r], network, mask) ==> HasRoute(net.routers[r].direct, network, mask)
  {
  }

  /** The position of a route of `r` for the network. */
  ghost predicate UsesRoute(net: Network, r: nat, network: nat, mask: nat, j: nat)
    requires r in net.routers
  {
    j < |net.routers[r].table| && net.routers[r].table[j].dest == network && net.routers[r].table[j].mask == mask
  }

  /** The router that packets for the network go to when `r` uses its route at position `j`. */
  ghost predicate HandsTo(net: Network, r: nat, network: nat, mask: nat, h: nat)
    requires r in net.routers
  {
    exists j: nat :: UsesRoute(net, r, network, mask, j)
      && net.routers[r].table[j].gw in net.owner && net.owner[net.routers[r].table[j].gw] == h
  }

  lemma GoodRouteDescends(net: Network, r: nat, route: Route, d: nat)
    requires GoodRoute(net, r, route) && NetworkDist(net, r, route.dest, route.mask, d)
    ensures route.gw in net.owner && net.owner[route.gw] in net.lsdb
    ensures d > 0 && NetworkDist(net, net.owner[route.gw], route.dest, route.mask, d - 1)
  {
    var a, c: nat :| NearestFrom(net, r, a, route.dest, route.mask, c) && Towards(net, r, route.gw, a, c);
    var e, h := RidLinks(net.lsdb), net.owner[route.gw];
    var b :| NearestFrom(net, r, b, route.dest, route.mask, d);
    assert c == d;
    forall x, k: nat | x in net.lsdb && Lists(net.lsdb[x], route.dest, route.mask) && k < d - 1
      ensures !Reaches(e, h, x, k)
    {
      if Reaches(e, h, x, k) {
        OneHop(e, r, h);
        Concat(e, r, h, x, 1, k);
      }
    }
    assert NearestFrom(net, h, a, route.dest, route.mask, d - 1);
  }

  /** `r` hands packets on, and whichever route it uses the packet leaves on an interface where the
      next router is heard, and that router is exactly one hop closer. */
  ghost predicate StepsCloser(net: Network, r: nat, network: nat, mask: nat, d: nat)
    requires r in net.routers
  {
    && d > 0
    && (exists h :: HandsTo(net, r, network, mask, h))
    && (forall j: nat :: UsesRoute(net, r, network, mask, j) ==> LeavesRight(net, r, j))
    && forall h :: HandsTo(net, r, network, mask, h) ==> h in net.routers && NetworkDist(net, h, network, mask, d - 1)
  }

  /** Every router that is not attached to an advertised network hands packets for it on, and
      whichever route it uses the next router is exactly one hop closer to the nearest advertiser. */
  lemma ForwardingDescends(net: Network, r: nat, network: nat, mask: nat, d: nat)
    requires Converged(net) && r in net.routers && NetworkDist(net, r, network, mask, d)
    requires !HasRoute(net.routers[r].direct, network, mask)
    ensures StepsCloser(net, r, network, mask, d)
  {
    var j := RouteForReachable(net, r, network, mask, d);
    RouteDescends(net, r, network, mask, d, j);
    assert HandsTo(net, r, network, mask, net.owner[net.routers[r].table[j].gw]);
    forall i: nat | UsesRoute(net, r, network, mask, i) ensures LeavesRight(net, r, i) {
      UsedIsInstalled(net, r, network, mask, i);
      InstalledLeavesRight(net, r, i);
    }
    forall h | HandsTo(net, r, network, mask, h)
      ensures h in net.routers && d > 0 && NetworkDist(net, h, network, mask, d - 1)
    {
      var i: nat :| UsesRoute(net, r, network, mask, i)
        && net.routers[r].table[i].gw in net.owner && net.owner[net.routers[r].table[i].gw] == h;
      RouteDescends(net, r, network, mask, d, i);
    }
  }

  lemma RouteForReachable(net: Network, r: nat, network: nat, mask: nat, d: nat) returns (j: nat)
    requires Converged(net) && r in net.routers && NetworkDist(net, r, network, mask, d)
    requires !HasRoute(net.routers[r].direct, network, mask)
    ensures UsesRoute(net, r, network, mask, j)
  {
    OwnIsDirect(net, r, network, mask);
    var a :| NearestFrom(net, r, a, network, mask, d);
    assert RouterOk(net, r);
    AdvertisedHasRoute(net, r, net.routers[r].view, net.routers[r].direct, net.routers[r].table, a, network, mask);
    var table := net.routers[r].table;
    j :| 0 <= j < |table| && table[j].dest == network && table[j].mask == mask;
  }

  lemma RouteDescends(net: Network, r: nat, network: nat, mask: nat, d: nat, j: nat)
    requires Converged(net) && r in net.routers && NetworkDist(net, r, network, mask, d)
    requires !HasRoute(net.routers[r].direct, network, mask) && UsesRoute(net, r, network, mask, j)
    ensures net.routers[r].table[j].gw in net.owner
    ensures var h := net.owner[net.routers[r].table[j].gw];
            h in net.routers && d > 0 && NetworkDist(net, h, network, mask, d - 1)
  {
    OwnIsDirect(net, r, network, mask);
    InstalledPosition(net.routers[r].direct, net.routers[r].table, j);
    InstalledIsGood(net, r, j);
    GoodRouteDescends(net, r, net.routers[r].table[j], d);
  }

  lemma UsedIsInstalled(net: Network, r: nat, network: nat, mask: nat, j: nat)
    requires Converged(net) && r in net.routers
    requires !HasRoute(net.routers[r].direct, network, mask) && UsesRoute(net, r, network, mask, j)
    ensures |net.routers[r].direct| <= j
  {
    assert RouterOk(net, r);
    InstalledPosition(net.routers[r].direct, net.routers[r].table, j);
  }

  lemma InstalledPosition(direct: seq<Route>, table: seq<Route>, j: nat)
    requires j < |table|
    ensures direct <= table && !HasRoute(direct, table[j].dest, table[j].mask) ==> j >= |direct|
  {
  }

  /** A packet's way so far: each router but the last is not attached and hands it on, by any of its
      routes for the network. */
  ghost predicate Way(net: Network, way: seq<nat>, network: nat, mask: nat) {
    && |way| > 0 && way[0] in net.routers
    && forall k :: 0 <= k < |way| - 1 ==> PassesOn(net, way[k], network, mask, way[k + 1])
  }

  ghost predicate PassesOn(net: Network, r: nat, network: nat, mask: nat, h: nat) {
    r in net.routers && !HasRoute(net.routers[r].direct, network, mask) && HandsTo(net, r, network, mask, h)
  }

  /** A way whose last router is attached to the network. */
  ghost predicate Delivers(net: Network, way: seq<nat>, network: nat, mask: nat) {
    && Way(net, way, network, mask) && way[|way| - 1] in net.routers
    && HasRoute(net.routers[way[|way| - 1]].direct, network, mask)
  }

  lemma DeliversLonger(net: Network, r: nat, rest: seq<nat>, network: nat, mask: nat)
    requires Delivers(net, rest, network, mask) && r in net.routers
    requires !HasRoute(net.routers[r].direct, network, mask) && HandsTo(net, r, network, mask, rest[0])
    ensures Delivers(net, [r] + rest, network, mask)
  {
    var way := [r] + rest;
    forall k | 0 <= k < |way| - 1 ensures PassesOn(net, way[k], network, mask, way[k + 1]) {
      if k > 0 {
        assert way[k] == rest[k - 1] && way[k + 1] == rest[(k - 1) + 1];
      }
    }
  }

  /** Along the way the nearest advertiser gets one hop closer at every router. */
  ghost predicate Descends(net: Network, way: seq<nat>, network: nat, mask: nat, d: nat) {
    |way| <= d + 1 && forall k :: 0 <= k < |way| ==> NetworkDist(net, way[k], network, mask, d - k)
  }

  lemma DistsDiffer(net: Network, x: nat, y: nat, network: nat, mask: nat, c: nat, d: nat)
    requires NetworkDist(net, x, network, mask, c) && NetworkDist(net, y, network, mask, d) && c != d
    ensures x != y
  {
  }

  lemma DescendingIsDistinct(net: Network, way: seq<nat>, network: nat, mask: nat, d: nat)
    requires Descends(net, way, network, mask, d)
    ensures Distinct(way)
  {
    forall i, k | 0 <= i < k < |way| ensures way[i] != way[k] {
      DistsDiffer(net, way[i], way[k], network, mask, d - i, d - k);
    }
  }

  /** Wherever a packet for the network is, the next router is one hop closer. */
  ghost predicate Descent(net: Network, network: nat, mask: nat) {
    forall r, d: nat ::
      r in net.routers && NetworkDist(net, r, network, mask, d) && !HasRoute(net.routers[r].direct, network, mask) ==>
        StepsCloser(net, r, network, mask, d)
  }

  lemma ConvergedDescends(net: Network, network: nat, mask: nat)
    requires Converged(net)
    ensures Descent(net, network, mask)
  {
    forall r, d: nat |
      r in net.routers && NetworkDist(net, r, network, mask, d) && !HasRoute(net.routers[r].direct, network, mask)
      ensures StepsCloser(net, r, network, mask, d)
    {
      ForwardingDescends(net, r, network, mask, d);
    }
  }

  lemma {:induction false} DescentDelivers(net: Network, r: nat, network: nat, mask: nat, d: nat)
    returns (way: seq<nat>)
    requires Descent(net, network, mask) && r in net.routers && NetworkDist(net, r, network, mask, d)
    ensures Delivers(net, way, network, mask) && way[0] == r && Descends(net, way, network, mask, d)
    decreases d
  {
    if HasRoute(net.routers[r].direct, network, mask) {
      way := [r];
    } else {
      assert StepsCloser(net, r, network, mask, d);
      var h :| HandsTo(net, r, network, mask, h);
      var rest := DescentDelivers(net, h, network, mask, d - 1);
      DeliversLonger(net, r, rest, network, mask);
      DescendsLonger(net, r, rest, network, mask, d);
      way := [r] + rest;
    }
  }

  lemma DescendsLonger(net: Network, r: nat, rest: seq<nat>, network: nat, mask: nat, d: nat)
    requires NetworkDist(net, r, network, mask, d) && d > 0 && Descends(net, rest, network, mask, d - 1)
    ensures Descends(net, [r] + rest, network, mask, d)
  {
    var way := [r] + rest;
    forall k | 0 <= k < |way| ensures NetworkDist(net, way[k], network, mask, d - k) {
      if k > 0 {
        assert NetworkDist(net, rest[k - 1], network, mask, d - 1 - (k - 1));
      }
    }
  }

  /** From any router a packet to an advertised network can reach an attached router within as many
      hops as the nearest advertiser is away. */
  lemma ForwardingDelivers(net: Network, r: nat, network: nat, mask: nat, d: nat) returns (way: seq<nat>)
    requires Converged(net) && r in net.routers && NetworkDist(net, r, network, mask, d)
    ensures Delivers(net, way, network, mask) && way[0] == r
    ensures Descends(net, way, network, mask, d) && Distinct(way)
  {
    ConvergedDescends(net, network, mask);
    way := DescentDelivers(net, r, network, mask, d);
    DescendingIsDistinct(net, way, network, mask, d);
  }

  /** Whoever a packet is passed on to is one hop closer. */
  ghost predicate Falls(net: Network, network: nat, mask: nat) {
    forall r, h, d: nat :: PassesOn(net, r, network, mask, h) && NetworkDist(net, r, network, mask, d) ==>
      h in net.routers && d > 0 && NetworkDist(net, h, network, mask, d - 1)
  }

  lemma DescentFalls(net: Network, network: nat, mask: nat)
    requires Descent(net, network, mask)
    ensures Falls(net, network, mask)
  {
    forall r, h, d: nat | PassesOn(net, r, network, mask, h) && NetworkDist(net, r, network, mask, d)
      ensures h in net.routers && d > 0 && NetworkDist(net, h, network, mask, d - 1)
    {
      assert StepsCloser(net, r, network, mask, d);
    }
  }

  lemma DescendsFurther(net: Network, way: seq<nat>, h: nat, network: nat, mask: nat, d: nat)
    requires |way| > 0 && Descends(net, way, network, mask, d)
    requires |way| <= d && NetworkDist(net, h, network, mask, d - |way|)
    ensures Descends(net, way + [h], network, mask, d)
  {
    forall k | 0 <= k < |way + [h]| ensures NetworkDist(net, (way + [h])[k], network, mask, d - k) {
      if k < |way| {
        assert NetworkDist(net, way[k], network, mask, d - k);
      }
    }
  }

  lemma WayFront(net: Network, way: seq<nat>, network: nat, mask: nat)
    requires Way(net, way, network, mask) && |way| > 1
    ensures Way(net, way[..|way| - 1], network, mask)
    ensures PassesOn(net, way[|way| - 2], network, mask, way[|way| - 1])
  {
    var front := way[..|way| - 1];
    forall k | 0 <= k < |front| - 1 ensures PassesOn(net, front[k], network, mask, front[k + 1]) {
      assert PassesOn(net, way[k], network, mask, way[k + 1]);
    }
    var k := |way| - 2;
    assert PassesOn(net, way[k], network, mask, way[k + 1]);
  }

  lemma DescentGoesOn(net: Network, way: seq<nat>, h: nat, network: nat, mask: nat, d: nat)
    requires Falls(net, network, mask) && |way| > 0 && Descends(net, way, network, mask, d)
    requires PassesOn(net, way[|way| - 1], network, mask, h)
    ensures Descends(net, way + [h], network, mask, d) && h in net.routers
  {
    LastDist(net, way, network, mask, d);
    DescendsFurther(net, way, h, network, mask, d);
  }

  lemma {:induction false} EveryWayIsDescent(net: Network, way: seq<nat>, network: nat, mask: nat, d: nat)
    requires Falls(net, network, mask) && Way(net, way, network, mask)
    requires NetworkDist(net, way[0], network, mask, d)
    ensures Descends(net, way, network, mask, d) && way[|way| - 1] in net.routers
  {
    if |way| > 1 {
      var front, last := way[..|way| - 1], way[|way| - 1];
      WayFront(net, way, network, mask);
      EveryWayIsDescent(net, front, network, mask, d);
      assert way == front + [last];
      DescentGoesOn(net, front, last, network, mask, d);
    }
  }

  lemma LastDist(net: Network, way: seq<nat>, network: nat, mask: nat, d: nat)
    requires |way| > 0 && Descends(net, way, network, mask, d)
    ensures |way| <= d + 1 && NetworkDist(net, way[|way| - 1], network, mask, d - (|way| - 1))
  {
  }

  /** Whichever routes are used, a packet from a router `d` hops away from the nearest advertiser of
      its network passes at most `d + 1` routers and none twice, and every router that is not attached
      has a next one; so every way is finite and ends at an attached router. */
  lemma EveryWayDescends(net: Network, way: seq<nat>, network: nat, mask: nat, d: nat)
    requires Converged(net) && Way(net, way, network, mask) && NetworkDist(net, way[0], network, mask, d)
    ensures Descends(net, way, network, mask, d) && Distinct(way)
    ensures Delivers(net, way, network, mask) || exists h :: Way(net, way + [h], network, mask)
  {
    ConvergedDescends(net, network, mask);
    DescentFalls(net, network, mask);
    EveryWayIsDescent(net, way, network, mask, d);
    DescendingIsDistinct(net, way, network, mask, d);
    var last := way[|way| - 1];
    if !HasRoute(net.routers[last].direct, network, mask) {
      LastDist(net, way, network, mask, d);
      assert StepsCloser(net, last, network, mask, d - (|way| - 1));
      var h :| HandsTo(net, last, network, mask, h);
      WayLonger(net, way, h, network, mask);
    }
  }

  lemma WayLonger(net: Network, way: seq<nat>, h: nat, network: nat, mask: nat)
    requires Way(net, way, network, mask) && PassesOn(net, way[|way| - 1], network, mask, h)
    ensures Way(net, way + [h], network, mask)
  {
    forall k | 0 <= k < |way| ensures PassesOn(net, (way + [h])[k], network, mask, (way + [h])[k + 1]) {
      assert k < |way| - 1 ==> PassesOn(net, way[k], network, mask, way[k + 1]);
    }
  }

  // ---------------------------------------------------------------- building the routers

  /** Router `id` is within 126 hops of `self`. */
  ghost predicate Near(lsdb: map<nat, seq<Lsa>>, self: nat, id: nat) {
    exists k: nat :: k < INT8_MAX && Reaches(RidLinks(lsdb), self, id, k)
  }

  lemma NearIsReachable(lsdb: map<nat, seq<Lsa>>, self: nat, db: seq<DbEntry>, u: nat)
    requires SymmetricDb(lsdb) && Shared(lsdb, self, db) && Closed(self, db) && u <= |db|
    requires Near(lsdb, self, RouterIds(self, db)[u])
    ensures Reachable(DbLinks(self, db, |db|), u)
  {
    var ids := RouterIds(self, db);
    SharedRenames(lsdb, self, db);
    var k: nat :| k < INT8_MAX && Reaches(RidLinks(lsdb), self, ids[u], k);
    WalksIn(ids, DbLinks(self, db, |db|), RidLinks(lsdb), 0, u, k);
  }

  lemma NeighborsAreGateways(lsdb: map<nat, seq<Lsa>>, self: nat, v: View, t: nat)
    requires SymmetricDb(lsdb) && Shared(lsdb, self, v.db) && Closed(self, v.db)
    requires v.Valid() && v.ids == RouterIds(self, v.db)
    requires Shortest(DbLinks(self, v.db, |v.db|), |v.ids|, v.dist, v.prev)
    requires forall id :: (self, id) in RidLinks(lsdb) ==> FindNeighbor(v.ifaces, id, 0).Some?
    requires 0 < t < |v.ids|
    ensures v.Gateway(t).Some?
  {
    SharedRenames(lsdb, self, v.db);
    RenamedHop(v.ids, DbLinks(self, v.db, |v.db|), RidLinks(lsdb), v.dist, v.prev, t);
  }

  /** What one run of the thread leaves. */
  ghost predicate Computed(self: nat, db: seq<DbEntry>, router: Router) {
    var Router(v, direct, table) := router;
    && Closed(self, db) && v.db == db && v.ids == RouterIds(self, db)
    && Shortest(DbLinks(self, db, |db|), |v.ids|, v.dist, v.prev)
    && v.Valid() && v.TableOk(direct, table)
  }

  method ComputeTable(self: nat, db: seq<DbEntry>, ifaces: seq<seq<Neighbor>>, rt0: seq<Route>) returns (router: Router)
    requires Closed(self, db) && Distinct(RouterIds(self, db))
    requires forall u: nat :: u <= |db| ==> Reachable(DbLinks(self, db, |db|), u)
    ensures Computed(self, db, router) && router.direct == Direct(rt0) && router.view.ifaces == ifaces
  {
    var n := |db| + 1;
    var routerList, prev, dist := new nat[n](_ => 0), new int[n](_ => 0), new int[n](_ => 0);
    var graph := new int[n, n]((_, _) => 0);
    var table := GenerateTable(self, db, ifaces, rt0, routerList, graph, prev, dist);
    router := Router(View(RouterIds(self, db), db, ifaces, dist[..], prev[..]), Direct(rt0), table);
  }

  lemma AllReachable(lsdb: map<nat, seq<Lsa>>, self: nat, db: seq<DbEntry>)
    requires SymmetricDb(lsdb) && Shared(lsdb, self, db) && Closed(self, db)
    requires forall id {:trigger Near(lsdb, self, id)} :: id in lsdb ==> Near(lsdb, self, id)
    ensures forall u: nat :: u <= |db| ==> Reachable(DbLinks(self, db, |db|), u)
  {
    forall u: nat | u <= |db| ensures Reachable(DbLinks(self, db, |db|), u) {
      KnownIds(lsdb, self, db, u);
      NearIsReachable(lsdb, self, db, u);
    }
  }

  lemma ComputedIsBuilt(lsdb: map<nat, seq<Lsa>>, self: nat, db: seq<DbEntry>, router: Router)
    requires SymmetricDb(lsdb) && Shared(lsdb, self, db) && Computed(self, db, router)
    requires forall id :: (self, id) in RidLinks(lsdb) ==> FindNeighbor(router.view.ifaces, id, 0).Some?
    requires forall i :: 0 <= i < |lsdb[self]| ==> HasRoute(router.direct, lsdb[self][i].network, lsdb[self][i].mask)
    ensures Built(lsdb, self, router)
  {
    forall t: nat | 0 < t < |router.view.ids| ensures router.view.Gateway(t).Some? {
      NeighborsAreGateways(lsdb, self, router.view, t);
    }
  }

  /** Any router that knows its linked neighbours, holds the database and is near all others builds
      a table that meets the conditions of forwarding. */
  method BuildRouter(ghost lsdb: map<nat, seq<Lsa>>, self: nat, db: seq<DbEntry>, ifaces: seq<seq<Neighbor>>,
                     rt0: seq<Route>)
    returns (router: Router)
    requires SymmetricDb(lsdb) && Shared(lsdb, self, db)
    requires forall id {:trigger Near(lsdb, self, id)} :: id in lsdb ==> Near(lsdb, self, id)
    requires forall id :: (self, id) in RidLinks(lsdb) ==> FindNeighbor(ifaces, id, 0).Some?
    requires forall i :: 0 <= i < |lsdb[self]| ==> HasRoute(Direct(rt0), lsdb[self][i].network, lsdb[self][i].mask)
    ensures Built(lsdb, self, router) && router.direct == Direct(rt0) && router.view.ifaces == ifaces
  {
    SharedIsClosed(lsdb, self, db);
    AllReachable(lsdb, self, db);
    router := ComputeTable(self, db, ifaces, rt0);
    ComputedIsBuilt(lsdb, self, db, router);
  }
}
