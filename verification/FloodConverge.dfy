/**
 Flooding does its work: whatever was lost or expired before, when every router of a connected
 network advertises once more the updates can reach all others, and then the databases are the one
 that the routing tables are built from.
 */
module FloodConverge {
  import opened Common
  import opened Hops
  import opened RouteTable
  import opened Flooding
  import opened Forwarding

  /** Who is whose neighbour while the updates spread. */
  type Neighbors = map<nat, set<nat>>

  ghost function NeighborLinks(nbrs: Neighbors): Edges {
    set a, b | a in nbrs && b in nbrs[a] :: (a, b)
  }

  /** Every router has neighbours among the others only. */
  ghost predicate Proper(routers: set<nat>, nbrs: Neighbors) {
    nbrs.Keys == routers && forall r :: r in routers ==> nbrs[r] <= routers - {r}
  }

  ghost predicate HasWay(nbrs: Neighbors, a: nat, b: nat) {
    exists k: nat :: Reaches(NeighborLinks(nbrs), a, b, k)
  }

  ghost predicate Connected(routers: set<nat>, nbrs: Neighbors) {
    Proper(routers, nbrs) && forall a, b :: a in routers && b in routers ==> HasWay(nbrs, a, b)
  }

  /** A way out of a set uses a link out of it. */
  lemma {:induction false} LeavesBy(e: Edges, s: set<nat>, a: nat, b: nat, k: nat) returns (x: nat, y: nat)
    requires Reaches(e, a, b, k) && a in s && b !in s
    ensures x in s && y !in s && (x, y) in e
    decreases k
  {
    var w: nat :| Reaches(e, a, w, k - 1) && (w, b) in e;
    if w in s {
      x, y := w, b;
    } else {
      x, y := LeavesBy(e, s, a, w, k - 1);
    }
  }

  // ---------------------------------------------------------------- one update spreads

  /** Router `x` holds the newest advertisement of router `r`. */
  ghost predicate Knows(net: Net, x: nat, r: nat) {
    x in net.dbs && r in net.history && HeldSeq(net.dbs[x], r) == |net.history[r]| > 0
  }

  /** A copy of the newest update of `r` is on its way to `y` with at least `ttl` left. */
  ghost predicate OnItsWay(net: Net, r: nat, y: nat, ttl: int)
    requires r in net.history && net.history[r] != []
  {
    exists u :: u in net.flying && u.dst == y && u.rid == r && u.ttl >= ttl && u.seqNo == |net.history[r]|
  }

  /** The routers in `s`, all but `r` itself, know the newest update of `r`, and copies are on their
      way to the neighbours of each; the others do not know it. */
  ghost predicate Spread(net: Net, routers: set<nat>, nbrs: Neighbors, r: nat, s: set<nat>)
    requires nbrs.Keys == routers
  {
    && r in s && s <= routers && net.dbs.Keys == routers == net.history.Keys && net.history[r] != []
    && (forall x :: x in s && x != r ==> Knows(net, x, r))
    && (forall x :: x in routers && x !in s ==> HeldSeq(net.dbs[x], r) < |net.history[r]|)
    && forall x, y :: x in s && y in nbrs[x] && y != r ==> OnItsWay(net, r, y, MOSPF_MAX_LSU_TTL + 1 - |s|)
  }

  /** What one flood leaves alone. */
  ghost predicate OthersKept(net: Net, net': Net, r: nat) {
    && net'.history.Keys == net.history.Keys && net'.dbs.Keys == net.dbs.Keys
    && (forall q :: q in net.history && q != r ==> net'.history[q] == net.history[q])
    && forall x, q :: x in net.dbs && q != r ==> HeldSeq(net'.dbs[x], q) == HeldSeq(net.dbs[x], q)
  }

  lemma CopiesStart(net: Net, nbrs: Neighbors, r: nat, lsas: seq<Lsa>)
    requires r in net.history && r in nbrs && Enabled(net, Originate(r, lsas, nbrs[r]))
    ensures forall y :: y in nbrs[r] ==> OnItsWay(Next(net, Originate(r, lsas, nbrs[r])), r, y, MOSPF_MAX_LSU_TTL)
  {
    var net' := Next(net, Originate(r, lsas, nbrs[r]));
    forall y | y in nbrs[r] ensures OnItsWay(net', r, y, MOSPF_MAX_LSU_TTL) {
      assert Lsu(y, r, |net.history[r]| + 1, MOSPF_MAX_LSU_TTL, lsas) in net'.flying;
    }
  }

  lemma OriginateSpreads(net: Net, routers: set<nat>, nbrs: Neighbors, r: nat, lsas: seq<Lsa>)
    requires Inv(net) && net.dbs.Keys == routers == net.history.Keys && Proper(routers, nbrs)
    requires r in routers && |net.history[r]| + 1 < 0x1_0000
    ensures var ev := Originate(r, lsas, nbrs[r]);
            && Enabled(net, ev) && Spread(Next(net, ev), routers, nbrs, r, {r})
            && Next(net, ev).history[r] == net.history[r] + [lsas] && OthersKept(net, Next(net, ev), r)
  {
    CopiesStart(net, nbrs, r, lsas);
    forall x | x in routers ensures HeldSeq(net.dbs[x], r) <= |net.history[r]| {
      HeldBelowHistory(net, x, r);
    }
  }

  lemma CopyFor(net: Net, r: nat, y: nat, ttl: int) returns (u: Lsu)
    requires r in net.history && net.history[r] != [] && OnItsWay(net, r, y, ttl)
    ensures u in net.flying && u.dst == y && u.rid == r && u.ttl >= ttl && u.seqNo == |net.history[r]|
  {
    u :| u in net.flying && u.dst == y && u.rid == r && u.ttl >= ttl && u.seqNo == |net.history[r]|;
  }

  /** A copy that reaches a router which does not know it yet makes it known there and goes on. */
  lemma DeliverySpreads(net: Net, routers: set<nat>, nbrs: Neighbors, r: nat, s: set<nat>, x: nat, y: nat)
    returns (ev: Event)
    requires Inv(net) && Proper(routers, nbrs) && |routers| <= MOSPF_MAX_LSU_TTL
    requires Spread(net, routers, nbrs, r, s) && x in s && y in nbrs[x] && y !in s
    ensures Enabled(net, ev) && Spread(Next(net, ev), routers, nbrs, r, s + {y})
    ensures Next(net, ev).history == net.history && OthersKept(net, Next(net, ev), r)
  {
    var u := CopyFor(net, r, y, MOSPF_MAX_LSU_TTL + 1 - |s|);
    ev := Deliver(u, nbrs[y]);
    SizeBelow(s, y, routers);
    MergedHeld(net, u);
    CopiesGoOn(net, nbrs, u);
    DeliveredSpread(net, routers, nbrs, r, s, u);
  }

  lemma MergedHeld(net: Net, u: Lsu)
    requires Inv(net) && u in net.flying && u.dst in net.dbs && HeldSeq(net.dbs[u.dst], u.rid) < u.seqNo
    ensures forall q ::
              HeldSeq(Merge(net.dbs[u.dst], u), q) == if q == u.rid then u.seqNo else HeldSeq(net.dbs[u.dst], q)
  {
    forall q ensures
      HeldSeq(Merge(net.dbs[u.dst], u), q) == if q == u.rid then u.seqNo else HeldSeq(net.dbs[u.dst], q)
    {
      MergeRaises(net.history, u.dst, net.dbs[u.dst], u, q);
    }
  }

  lemma SizeBelow(s: set<nat>, y: nat, routers: set<nat>)
    requires s <= routers && y in routers && y !in s
    ensures |s + {y}| == |s| + 1 <= |routers|
  {
    SubsetSize(s + {y}, routers);
  }

  lemma {:induction false} SubsetSize(a: set<nat>, b: set<nat>)
    requires a <= b
    ensures |a| <= |b|
  {
    if a != {} {
      var x :| x in a;
      SubsetSize(a - {x}, b - {x});
    }
  }

  /** The copy of `u` that router `u.dst` sends to `z`. */
  function CopyTo(u: Lsu, z: nat): Lsu {
    u.(dst := z, ttl := LessTtl(u.ttl))
  }

  lemma CopiesGoOn(net: Net, nbrs: Neighbors, u: Lsu)
    requires Inv(net) && u in net.flying && u.ttl >= 2 && u.dst in net.dbs && u.dst in nbrs
    requires HeldSeq(net.dbs[u.dst], u.rid) < u.seqNo
    ensures LessTtl(u.ttl) == u.ttl - 1
    ensures forall z :: z in nbrs[u.dst] && z != u.rid ==>
              CopyTo(u, z) in Forwarded(net.dbs[u.dst], u, nbrs[u.dst])
  {
    MergeRaises(net.history, u.dst, net.dbs[u.dst], u, u.rid);
  }

  lemma DeliveredSpread(net: Net, routers: set<nat>, nbrs: Neighbors, r: nat, s: set<nat>, u: Lsu)
    requires nbrs.Keys == routers && Spread(net, routers, nbrs, r, s) && u in net.flying
    requires u.dst in routers && u.dst !in s && u.dst !in nbrs[u.dst] && u.rid == r
    requires |s + {u.dst}| == |s| + 1 && u.ttl > MOSPF_MAX_LSU_TTL - |s| && u.seqNo == |net.history[r]|
    requires forall q :: HeldSeq(Merge(net.dbs[u.dst], u), q) == if q == r then u.seqNo else HeldSeq(net.dbs[u.dst], q)
    requires LessTtl(u.ttl) == u.ttl - 1
    requires forall z :: z in nbrs[u.dst] && z != r ==> CopyTo(u, z) in Forwarded(net.dbs[u.dst], u, nbrs[u.dst])
    ensures Spread(Next(net, Deliver(u, nbrs[u.dst])), routers, nbrs, r, s + {u.dst})
    ensures OthersKept(net, Next(net, Deliver(u, nbrs[u.dst])), r)
  {
    var net' := Next(net, Deliver(u, nbrs[u.dst]));
    forall x, z | x in s + {u.dst} && z in nbrs[x] && z != r
      ensures OnItsWay(net', r, z, MOSPF_MAX_LSU_TTL - |s|)
    {
      if x == u.dst {
        assert CopyTo(u, z) in net'.flying;
      } else {
        assert OnItsWay(net, r, z, MOSPF_MAX_LSU_TTL + 1 - |s|);
      }
    }
  }

  lemma ExecOneMore(routers: set<nat>, evs: seq<Event>, net: Net, ev: Event)
    requires Exec(routers, evs) == Some(net) && Enabled(net, ev)
    ensures Exec(routers, evs + [ev]) == Some(Next(net, ev))
  {
    assert (evs + [ev])[..|evs|] == evs;
  }

  lemma LinkOutOf(routers: set<nat>, nbrs: Neighbors, r: nat, s: set<nat>) returns (x: nat, y: nat)
    requires Connected(routers, nbrs) && r in s && s <= routers && s != routers
    ensures x in s && y in nbrs[x] && y !in s
  {
    var b :| b in routers && b !in s;
    assert HasWay(nbrs, r, b);
    var k: nat :| Reaches(NeighborLinks(nbrs), r, b, k);
    x, y := LeavesBy(NeighborLinks(nbrs), s, r, b, k);
  }

  lemma KeptTwice(net: Net, mid: Net, net': Net, r: nat)
    requires OthersKept(net, mid, r) && OthersKept(mid, net', r)
    ensures OthersKept(net, net', r)
  {
  }

  lemma {:induction false} SpreadsToAll(routers: set<nat>, nbrs: Neighbors, evs: seq<Event>, net0: Net, r: nat,
                                        s: set<nat>) returns (run: seq<Event>, net: Net)
    requires Connected(routers, nbrs) && |routers| <= MOSPF_MAX_LSU_TTL
    requires Exec(routers, evs) == Some(net0) && Spread(net0, routers, nbrs, r, s)
    ensures evs <= run && Exec(routers, run) == Some(net)
    ensures Spread(net, routers, nbrs, r, routers) && net.history == net0.history && OthersKept(net0, net, r)
    decreases routers - s
  {
    if s == routers {
      run, net := evs, net0;
    } else {
      var x, y := LinkOutOf(routers, nbrs, r, s);
      var first, mid := SpreadsOn(routers, nbrs, evs, net0, r, s, x, y);
      run, net := SpreadsToAll(routers, nbrs, first, mid, r, s + {y});
      KeptTwice(net0, mid, net, r);
    }
  }

  lemma SpreadsOn(routers: set<nat>, nbrs: Neighbors, evs: seq<Event>, net0: Net, r: nat, s: set<nat>, x: nat,
                  y: nat) returns (run: seq<Event>, net: Net)
    requires Proper(routers, nbrs) && |routers| <= MOSPF_MAX_LSU_TTL && Exec(routers, evs) == Some(net0)
    requires Spread(net0, routers, nbrs, r, s) && x in s && y in nbrs[x] && y !in s
    ensures evs <= run && Exec(routers, run) == Some(net) && y in routers
    ensures Spread(net, routers, nbrs, r, s + {y}) && net.history == net0.history && OthersKept(net0, net, r)
  {
    ExecInv(routers, evs);
    var ev := DeliverySpreads(net0, routers, nbrs, r, s, x, y);
    ExecOneMore(routers, evs, net0, ev);
    run, net := evs + [ev], Next(net0, ev);
  }

  // ---------------------------------------------------------------- all updates spread

  /** All other routers know the newest advertisement of `r`, which is `lsas`. */
  ghost predicate KnownToAll(net: Net, r: nat, lsas: seq<Lsa>) {
    && r in net.history && net.history[r] != [] && net.history[r][|net.history[r]| - 1] == lsas
    && forall x :: x in net.dbs && x != r ==> Knows(net, x, r)
  }

  lemma OneFlood(routers: set<nat>, nbrs: Neighbors, evs: seq<Event>, net0: Net, r: nat, lsas: seq<Lsa>)
    returns (run: seq<Event>, net: Net)
    requires Connected(routers, nbrs) && |routers| <= MOSPF_MAX_LSU_TTL && Exec(routers, evs) == Some(net0)
    requires r in routers && r in net0.history && |net0.history[r]| + 1 < 0x1_0000
    ensures evs <= run && Exec(routers, run) == Some(net) && KnownToAll(net, r, lsas) && OthersKept(net0, net, r)
  {
    ExecInv(routers, evs);
    ExecRouters(routers, evs);
    OriginateSpreads(net0, routers, nbrs, r, lsas);
    var ev := Originate(r, lsas, nbrs[r]);
    ExecOneMore(routers, evs, net0, ev);
    run, net := SpreadsToAll(routers, nbrs, evs + [ev], Next(net0, ev), r, {r});
    KeptTwice(net0, Next(net0, ev), net, r);
  }

  lemma OthersStayKnown(net: Net, net': Net, r: nat, q: nat, lsas: seq<Lsa>)
    requires OthersKept(net, net', r) && q != r && KnownToAll(net, q, lsas)
    ensures KnownToAll(net', q, lsas)
  {
  }

  /** Routers not in `todo` are known to all, and the others can still advertise. */
  ghost predicate AlreadyKnown(net: Net, lsdb: map<nat, seq<Lsa>>, todo: set<nat>) {
    && todo <= lsdb.Keys
    && (forall r :: r in todo ==> r in net.history && |net.history[r]| + 1 < 0x1_0000)
    && forall r :: r in lsdb && r !in todo ==> KnownToAll(net, r, lsdb[r])
  }

  lemma OneMoreKnown(net: Net, net': Net, lsdb: map<nat, seq<Lsa>>, todo: set<nat>, r: nat)
    requires AlreadyKnown(net, lsdb, todo) && r in todo
    requires OthersKept(net, net', r) && KnownToAll(net', r, lsdb[r])
    ensures AlreadyKnown(net', lsdb, todo - {r})
  {
    forall q | q in lsdb && q !in todo - {r} ensures KnownToAll(net', q, lsdb[q]) {
      if q != r {
        OthersStayKnown(net, net', r, q, lsdb[q]);
      }
    }
  }

  lemma {:induction false} AllFloods(routers: set<nat>, nbrs: Neighbors, evs: seq<Event>, net0: Net,
                                     lsdb: map<nat, seq<Lsa>>, todo: set<nat>) returns (run: seq<Event>, net: Net)
    requires Connected(routers, nbrs) && |routers| <= MOSPF_MAX_LSU_TTL && Exec(routers, evs) == Some(net0)
    requires routers == lsdb.Keys && AlreadyKnown(net0, lsdb, todo)
    ensures evs <= run && Exec(routers, run) == Some(net) && AlreadyKnown(net, lsdb, {})
    decreases todo
  {
    if todo == {} {
      run, net := evs, net0;
    } else {
      var r :| r in todo;
      var first, mid := OneFlood(routers, nbrs, evs, net0, r, lsdb[r]);
      OneMoreKnown(net0, mid, lsdb, todo, r);
      run, net := AllFloods(routers, nbrs, first, mid, lsdb, todo - {r});
    }
  }

  lemma KnownEntry(net: Net, x: nat, db: seq<Record>, k: nat, lsas: seq<Lsa>)
    requires x in net.dbs && db == net.dbs[x] && DbOk(net.history, x, db) && k < |db|
    requires KnownToAll(net, db[k].rid, lsas)
    ensures db[k].lsas == lsas
  {
    HeldSeqAt(net.history, x, db, db[k].rid);
    assert Knows(net, x, db[k].rid);
  }

  lemma KnownIsListed(net: Net, x: nat, db: seq<Record>, r: nat, lsas: seq<Lsa>)
    requires x in net.dbs && db == net.dbs[x] && DbOk(net.history, x, db) && KnownToAll(net, r, lsas)
    ensures r in RouterIds(x, Entries(db))
  {
    if r == x {
      assert RouterIds(x, Entries(db))[0] == x;
    } else {
      assert Knows(net, x, r);
      HeldSeqAt(net.history, x, db, r);
      var k :| 0 <= k < |db| && db[k].rid == r;
      assert RouterIds(x, Entries(db))[k + 1] == r;
    }
  }

  /** Databases in which everything known is newest are the shared one. */
  lemma KnownIsShared(routers: set<nat>, run: seq<Event>, net: Net, lsdb: map<nat, seq<Lsa>>, x: nat)
    requires Exec(routers, run) == Some(net) && routers == lsdb.Keys && x in routers && AlreadyKnown(net, lsdb, {})
    ensures x in net.dbs && Shared(lsdb, x, Entries(net.dbs[x]))
  {
    ExecRouters(routers, run);
    DatabasesAreAuthentic(routers, run, x);
    var db := net.dbs[x];
    forall k | 0 <= k < |db| ensures db[k].rid in lsdb && db[k].lsas == lsdb[db[k].rid] {
      KnownEntry(net, x, db, k, lsdb[db[k].rid]);
    }
    forall r | r in lsdb ensures r in RouterIds(x, Entries(db)) {
      KnownIsListed(net, x, db, r, lsdb[r]);
    }
  }

  /** From any point of a run of at most 255 connected routers, whatever was lost or has expired, the
      run can go on, every router advertising once, until each holds exactly the latest advertisements
      of all others: the database that the routing tables are built from. */
  lemma FloodsConverge(routers: set<nat>, nbrs: Neighbors, evs: seq<Event>, lsdb: map<nat, seq<Lsa>>)
    returns (run: seq<Event>, net: Net)
    requires Connected(routers, nbrs) && |routers| <= MOSPF_MAX_LSU_TTL && routers == lsdb.Keys
    requires Exec(routers, evs).Some?
    requires forall r :: r in routers ==>
               r in Exec(routers, evs).value.history && |Exec(routers, evs).value.history[r]| + 1 < 0x1_0000
    ensures evs <= run && Exec(routers, run) == Some(net)
    ensures forall x :: x in routers ==> x in net.dbs && Shared(lsdb, x, Entries(net.dbs[x]))
  {
    run, net := AllFloods(routers, nbrs, evs, Exec(routers, evs).value, lsdb, routers);
    forall x | x in routers ensures x in net.dbs && Shared(lsdb, x, Entries(net.dbs[x])) {
      KnownIsShared(routers, run, net, lsdb, x);
    }
  }
}
