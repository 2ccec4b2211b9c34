/**
 Forwarding by the longest match among all routes. The advertised networks may overlap; when they
 are written without bits outside their masks, every router takes the same one for a destination,
 so the packet follows the routes of that network all the way.
 */
module LongestForwarding {
  import opened Common
  import opened RouteTable
  import opened RouteInstall
  import opened Forwarding

  /** The bitwise `&` of two unsigned numbers. */
  function And(x: nat, y: nat): nat {
    if x == 0 || y == 0 then 0 else 2 * And(x / 2, y / 2) + (x % 2) * (y % 2)
  }

  lemma {:induction false} AndTwice(x: nat, y: nat)
    ensures And(And(x, y), y) == And(x, y)
  {
    if x != 0 && y != 0 {
      AndTwice(x / 2, y / 2);
      var low := (x % 2) * (y % 2);
      assert low == 0 || low == 1;
      assert And(x, y) / 2 == And(x / 2, y / 2) && And(x, y) % 2 == low;
      assert low * (y % 2) == low;
    }
  }

  predicate Matches(dst: nat, network: nat, mask: nat) {
    And(dst, mask) == And(network, mask)
  }

  /** Among the first `n` routes, `k` is the first with the greatest mask that matches. */
  ghost predicate Selected(rt: seq<Route>, n: nat, dst: nat, k: Option<nat>)
    requires n <= |rt|
  {
    match k
    case None => forall j :: 0 <= j < n ==> !Matches(dst, rt[j].dest, rt[j].mask)
    case Some(i) =>
      && i < n && Matches(dst, rt[i].dest, rt[i].mask)
      && (forall j :: 0 <= j < n && Matches(dst, rt[j].dest, rt[j].mask) ==> rt[j].mask <= rt[i].mask)
      && (forall j :: 0 <= j < i && Matches(dst, rt[j].dest, rt[j].mask) ==> rt[j].mask < rt[i].mask)
  }

  /** longest_prefix_match on the routing table. */
  method LongestMatch(rt: seq<Route>, dst: nat) returns (selected: Option<nat>)
    ensures Selected(rt, |rt|, dst, selected)
  {
    selected := None;
    for i := 0 to |rt|
      invariant Selected(rt, i, dst, selected)
    {
      if And(dst, rt[i].mask) == And(rt[i].dest, rt[i].mask) {
        if selected.None? || rt[selected.value].mask < rt[i].mask {
          selected := Some(i);
        }
      }
    }
  }

  // ---------------------------------------------------------------- the network all routers choose

  ghost predicate Advertised(lsdb: map<nat, seq<Lsa>>, network: nat, mask: nat) {
    exists a :: a in lsdb && Lists(lsdb[a], network, mask)
  }

  /** Advertised networks have no bits outside their masks. */
  ghost predicate Normal(lsdb: map<nat, seq<Lsa>>) {
    forall network: nat, mask: nat :: Advertised(lsdb, network, mask) ==> And(network, mask) == network
  }

  /** Networks computed as `ip & mask` of an interface or neighbour meet that. */
  lemma MaskedIsNormal(lsdb: map<nat, seq<Lsa>>)
    requires forall a, i :: a in lsdb && 0 <= i < |lsdb[a]| ==>
               exists ip: nat :: lsdb[a][i].network == And(ip, lsdb[a][i].mask)
    ensures Normal(lsdb)
  {
    forall network: nat, mask: nat | Advertised(lsdb, network, mask) ensures And(network, mask) == network {
      var ip: nat :| network == And(ip, mask);
      AndTwice(ip, mask);
    }
  }

  /** The direct routes of a router are for networks it advertises, and no router has address 0. */
  ghost predicate Plain(net: Network) {
    && Normal(net.lsdb)
    && (forall r :: r in net.routers ==> DirectOk(net, r))
    && 0 !in net.owner
  }

  ghost predicate DirectOk(net: Network, r: nat)
    requires r in net.routers
  {
    forall j :: 0 <= j < |net.routers[r].direct| ==>
      var route := net.routers[r].direct[j];
      IsDirect(route) && r in net.lsdb && Lists(net.lsdb[r], route.dest, route.mask)
  }

  /** The advertised network with the greatest mask among those that match. */
  ghost predicate Longest(lsdb: map<nat, seq<Lsa>>, dst: nat, network: nat, mask: nat) {
    && Advertised(lsdb, network, mask) && Matches(dst, network, mask)
    && forall n: nat, m: nat :: Advertised(lsdb, n, m) && Matches(dst, n, m) ==> m <= mask
  }

  /** The table has a route for every advertised network and no others. */
  ghost predicate Complete(lsdb: map<nat, seq<Lsa>>, table: seq<Route>) {
    && (forall j :: 0 <= j < |table| ==> Advertised(lsdb, table[j].dest, table[j].mask))
    && forall network: nat, mask: nat :: Advertised(lsdb, network, mask) ==> HasRoute(table, network, mask)
  }

  lemma RouteIsAdvertised(net: Network, r: nat, j: nat)
    requires Converged(net) && Plain(net) && r in net.routers && j < |net.routers[r].table|
    ensures Advertised(net.lsdb, net.routers[r].table[j].dest, net.routers[r].table[j].mask)
  {
    var Router(v, direct, table) := net.routers[r];
    assert RouterOk(net, r);
    if j < |direct| {
      assert DirectOk(net, r);
      assert table[j] == direct[j];
    } else {
      assert v.RouteOk(table[j]);
      var a: nat :| v.Nearest(a, table[j].dest, table[j].mask);
      KnownIds(net.lsdb, r, v.db, a);
    }
  }

  lemma AdvertisedIsRouted(net: Network, r: nat, network: nat, mask: nat)
    requires Converged(net) && r in net.routers && Advertised(net.lsdb, network, mask)
    ensures HasRoute(net.routers[r].table, network, mask)
  {
    var Router(v, direct, table) := net.routers[r];
    var a :| a in net.lsdb && Lists(net.lsdb[a], network, mask);
    assert RouterOk(net, r);
    if a == r {
      OwnIsDirect(net, r, network, mask);
      var i :| 0 <= i < |direct| && direct[i].dest == network && direct[i].mask == mask;
      assert table[i] == direct[i];
    } else {
      AdvertisedHasRoute(net, r, v, direct, table, a, network, mask);
    }
  }

  /** Every router has routes for exactly the advertised networks. */
  lemma TablesAreComplete(net: Network, r: nat)
    requires Converged(net) && Plain(net) && r in net.routers
    ensures Complete(net.lsdb, net.routers[r].table)
  {
    forall j | 0 <= j < |net.routers[r].table|
      ensures Advertised(net.lsdb, net.routers[r].table[j].dest, net.routers[r].table[j].mask)
    {
      RouteIsAdvertised(net, r, j);
    }
    forall network: nat, mask: nat | Advertised(net.lsdb, network, mask)
      ensures HasRoute(net.routers[r].table, network, mask)
    {
      AdvertisedIsRouted(net, r, network, mask);
    }
  }

  /** No route is selected exactly for the destinations that no advertised network matches. */
  lemma NoRouteIff(lsdb: map<nat, seq<Lsa>>, table: seq<Route>, dst: nat)
    requires Complete(lsdb, table)
    ensures Selected(table, |table|, dst, None) <==>
            forall network: nat, mask: nat :: Advertised(lsdb, network, mask) ==> !Matches(dst, network, mask)
  {
    if Selected(table, |table|, dst, None) {
      forall network: nat, mask: nat | Advertised(lsdb, network, mask) ensures !Matches(dst, network, mask) {
        var j :| 0 <= j < |table| && table[j].dest == network && table[j].mask == mask;
      }
    }
  }

  /** A complete table selects a route for the longest advertised match. */
  lemma SelectsLongest(lsdb: map<nat, seq<Lsa>>, table: seq<Route>, dst: nat, network: nat, mask: nat, k: nat)
    requires Complete(lsdb, table) && Normal(lsdb) && Longest(lsdb, dst, network, mask)
    requires Selected(table, |table|, dst, Some(k))
    ensures table[k].dest == network && table[k].mask == mask
  {
    assert HasRoute(table, network, mask);
    assert Advertised(lsdb, table[k].dest, table[k].mask);
    assert And(table[k].dest, mask) == table[k].dest && And(network, mask) == network;
  }

  lemma RouterSelectsLongest(net: Network, r: nat, dst: nat, network: nat, mask: nat, k: nat)
    requires Converged(net) && Plain(net) && r in net.routers && Longest(net.lsdb, dst, network, mask)
    requires Selected(net.routers[r].table, |net.routers[r].table|, dst, Some(k))
    ensures UsesRoute(net, r, network, mask, k)
  {
    TablesAreComplete(net, r);
    SelectsLongest(net.lsdb, net.routers[r].table, dst, network, mask, k);
  }

  lemma DirectFirst(direct: seq<Route>, table: seq<Route>, dst: nat, network: nat, mask: nat, k: nat)
    requires direct <= table && Selected(table, |table|, dst, Some(k))
    requires table[k].dest == network && table[k].mask == mask
    ensures k < |direct| <==> HasRoute(direct, network, mask)
  {
    if HasRoute(direct, network, mask) {
      var i :| 0 <= i < |direct| && direct[i].dest == network && direct[i].mask == mask;
      assert table[i] == direct[i];
    }
  }

  /** The selected route is direct exactly at the routers attached to the longest match. */
  lemma DirectIff(net: Network, r: nat, dst: nat, network: nat, mask: nat, k: nat)
    requires Converged(net) && Plain(net) && r in net.routers
    requires UsesRoute(net, r, network, mask, k)
    requires Selected(net.routers[r].table, |net.routers[r].table|, dst, Some(k))
    ensures net.routers[r].table[k].gw == 0 <==> HasRoute(net.routers[r].direct, network, mask)
  {
    var Router(v, direct, table) := net.routers[r];
    DirectIsPrefix(net, r);
    DirectFirst(direct, table, dst, network, mask, k);
    if k < |direct| {
      assert DirectOk(net, r);
      assert table[k] == direct[k];
    } else {
      InstalledHasGateway(net, r, k);
    }
  }

  lemma DirectIsPrefix(net: Network, r: nat)
    requires Converged(net) && r in net.routers
    ensures net.routers[r].direct <= net.routers[r].table
  {
    assert RouterOk(net, r);
  }

  lemma InstalledHasGateway(net: Network, r: nat, k: nat)
    requires Converged(net) && Plain(net) && r in net.routers
    requires |net.routers[r].direct| <= k < |net.routers[r].table|
    ensures net.routers[r].table[k].gw != 0
  {
    var v, route := net.routers[r].view, net.routers[r].table[k];
    assert RouterOk(net, r);
    assert v.RouteOk(route);
    var a: nat :| v.Nearest(a, route.dest, route.mask) && v.Gateway(a) == Some((route.iface, route.gw));
    NeighborIsOwner(net, v.ifaces, v.ids[v.Hop(a)], 0);
  }

  // ---------------------------------------------------------------- packets

  /** ip_forward_packet at router `r` selects a route whose gateway is an address of router `h`. */
  ghost predicate SendsTo(net: Network, r: nat, dst: nat, h: nat) {
    && r in net.routers
    && exists k: nat :: Selected(net.routers[r].table, |net.routers[r].table|, dst, Some(k))
         && net.routers[r].table[k].gw != 0
         && net.routers[r].table[k].gw in net.owner && net.owner[net.routers[r].table[k].gw] == h
  }

  ghost predicate GoesOn(net: Network, r: nat, dst: nat) {
    exists h :: SendsTo(net, r, dst, h)
  }

  /** The route selected at `r` is direct: the packet goes to its destination's own network. */
  ghost predicate Arrived(net: Network, r: nat, dst: nat) {
    && r in net.routers
    && exists k: nat :: Selected(net.routers[r].table, |net.routers[r].table|, dst, Some(k))
         && net.routers[r].table[k].gw == 0
  }

  /** The routers a packet has passed. */
  ghost predicate Journey(net: Network, way: seq<nat>, dst: nat) {
    && |way| > 0 && way[0] in net.routers
    && forall k :: 0 <= k < |way| - 1 ==> SendsTo(net, way[k], dst, way[k + 1])
  }

  /** A packet stops at `r` exactly if `r` is attached to the network; otherwise it is sent on. */
  ghost predicate StopsRight(net: Network, r: nat, dst: nat, network: nat, mask: nat) {
    && r in net.routers
    && (Arrived(net, r, dst) <==> HasRoute(net.routers[r].direct, network, mask))
    && (Arrived(net, r, dst) || GoesOn(net, r, dst))
  }

  lemma SendsIsPassesOn(net: Network, r: nat, dst: nat, network: nat, mask: nat, h: nat)
    requires Converged(net) && Plain(net) && Longest(net.lsdb, dst, network, mask) && SendsTo(net, r, dst, h)
    ensures PassesOn(net, r, network, mask, h)
  {
    var k: nat :| Selected(net.routers[r].table, |net.routers[r].table|, dst, Some(k))
      && net.routers[r].table[k].gw != 0
      && net.routers[r].table[k].gw in net.owner && net.owner[net.routers[r].table[k].gw] == h;
    RouterSelectsLongest(net, r, dst, network, mask, k);
    DirectIff(net, r, dst, network, mask, k);
  }

  lemma {:induction false} SomeSelected(rt: seq<Route>, n: nat, dst: nat) returns (k: Option<nat>)
    requires n <= |rt|
    ensures Selected(rt, n, dst, k)
  {
    k := None;
    if n > 0 {
      k := SomeSelected(rt, n - 1, dst);
      if Matches(dst, rt[n - 1].dest, rt[n - 1].mask) && (k.None? || rt[k.value].mask < rt[n - 1].mask) {
        k := Some(n - 1);
      }
    }
  }

  lemma LongestIsSelected(lsdb: map<nat, seq<Lsa>>, table: seq<Route>, dst: nat, network: nat, mask: nat)
    returns (k: nat)
    requires Complete(lsdb, table) && Longest(lsdb, dst, network, mask)
    ensures Selected(table, |table|, dst, Some(k))
  {
    var s := SomeSelected(table, |table|, dst);
    NoRouteIff(lsdb, table, dst);
    k := s.value;
  }

  lemma SelectedIsOne(table: seq<Route>, dst: nat, j: nat, k: nat)
    requires Selected(table, |table|, dst, Some(j)) && Selected(table, |table|, dst, Some(k))
    ensures j == k
  {
  }

  lemma ArrivesOrSends(net: Network, r: nat, dst: nat, network: nat, mask: nat, d: nat)
    requires Converged(net) && Plain(net) && r in net.routers
    requires Longest(net.lsdb, dst, network, mask) && NetworkDist(net, r, network, mask, d)
    ensures StopsRight(net, r, dst, network, mask)
  {
    var table := net.routers[r].table;
    TablesAreComplete(net, r);
    var k := LongestIsSelected(net.lsdb, table, dst, network, mask);
    RouterSelectsLongest(net, r, dst, network, mask, k);
    DirectIff(net, r, dst, network, mask, k);
    if HasRoute(net.routers[r].direct, network, mask) {
      assert Arrived(net, r, dst);
    } else {
      RouteDescends(net, r, network, mask, d, k);
      assert SendsTo(net, r, dst, net.owner[table[k].gw]);
      forall j: nat | Selected(table, |table|, dst, Some(j)) ensures j == k {
        SelectedIsOne(table, dst, j, k);
      }
    }
  }

  lemma SendsIsWay(net: Network, way: seq<nat>, dst: nat, network: nat, mask: nat)
    requires Converged(net) && Plain(net) && Longest(net.lsdb, dst, network, mask)
    requires Journey(net, way, dst)
    ensures Way(net, way, network, mask)
  {
    forall k | 0 <= k < |way| - 1 ensures PassesOn(net, way[k], network, mask, way[k + 1]) {
      SendsIsPassesOn(net, way[k], dst, network, mask, way[k + 1]);
    }
  }

  /** A packet for an address whose longest match among all advertised networks is `d` hops away
      passes at most `d + 1` routers and none twice, each one hop closer, leaving every one of them on
      an interface where the next is heard; it stops exactly at a router attached to that network. */
  lemma LongestMatchDelivers(net: Network, way: seq<nat>, dst: nat, network: nat, mask: nat, d: nat)
    requires Converged(net) && Plain(net) && Longest(net.lsdb, dst, network, mask)
    requires Journey(net, way, dst) && NetworkDist(net, way[0], network, mask, d)
    ensures Descends(net, way, network, mask, d) && Distinct(way)
    ensures StopsRight(net, way[|way| - 1], dst, network, mask)
    ensures forall i :: 0 <= i < |way| ==> SelectsRight(net, way[i], dst)
  {
    assert Descends(net, way, network, mask, d) && way[|way| - 1] in net.routers by {
      SendsIsWay(net, way, dst, network, mask);
      ConvergedDescends(net, network, mask);
      DescentFalls(net, network, mask);
      EveryWayIsDescent(net, way, network, mask, d);
    }
    assert Distinct(way) by {
      DescendingIsDistinct(net, way, network, mask, d);
    }
    assert forall i :: 0 <= i < |way| ==> SelectsRight(net, way[i], dst) by {
      AllSelectRight(net, way, dst);
    }
    assert StopsRight(net, way[|way| - 1], dst, network, mask) by {
      LastStops(net, way, dst, network, mask, d);
    }
  }

  /** A packet that `r` passes on leaves on an interface where the gateway's owner is heard. */
  ghost predicate SelectsRight(net: Network, r: nat, dst: nat) {
    r in net.routers && forall k: nat :: SelectsGateway(net.routers[r].table, dst, k) ==> LeavesRight(net, r, k)
  }

  ghost predicate SelectsGateway(table: seq<Route>, dst: nat, k: nat) {
    Selected(table, |table|, dst, Some(k)) && table[k].gw != 0
  }

  /** Whatever route `r` selects, if it has a gateway the packet leaves on an interface where the
      gateway's owner is heard. */
  lemma SelectedLeavesRight(net: Network, r: nat, dst: nat)
    requires Converged(net) && Plain(net) && r in net.routers
    ensures SelectsRight(net, r, dst)
  {
    DirectHasNoGateway(net, r);
    forall k: nat | SelectsGateway(net.routers[r].table, dst, k) ensures LeavesRight(net, r, k) {
      InstalledLeavesRight(net, r, k);
    }
  }

  lemma DirectHasNoGateway(net: Network, r: nat)
    requires Converged(net) && Plain(net) && r in net.routers
    ensures |net.routers[r].direct| <= |net.routers[r].table|
    ensures forall k :: 0 <= k < |net.routers[r].direct| ==> net.routers[r].table[k].gw == 0
  {
    DirectIsPrefix(net, r);
    assert DirectOk(net, r);
    forall k | 0 <= k < |net.routers[r].direct| ensures net.routers[r].table[k].gw == 0 {
      assert net.routers[r].table[k] == net.routers[r].direct[k];
    }
  }

  lemma AllSelectRight(net: Network, way: seq<nat>, dst: nat)
    requires Converged(net) && Plain(net) && Journey(net, way, dst) && way[|way| - 1] in net.routers
    ensures forall i :: 0 <= i < |way| ==> SelectsRight(net, way[i], dst)
  {
    forall i | 0 <= i < |way| ensures SelectsRight(net, way[i], dst) {
      assert i < |way| - 1 ==> SendsTo(net, way[i], dst, way[i + 1]);
      SelectedLeavesRight(net, way[i], dst);
    }
  }

  lemma LastStops(net: Network, way: seq<nat>, dst: nat, network: nat, mask: nat, d: nat)
    requires Converged(net) && Plain(net) && Longest(net.lsdb, dst, network, mask)
    requires |way| > 0 && way[|way| - 1] in net.routers && Descends(net, way, network, mask, d)
    ensures StopsRight(net, way[|way| - 1], dst, network, mask)
  {
    var r := way[|way| - 1];
    var c: nat :| NetworkDist(net, r, network, mask, c) by {
      LastDist(net, way, network, mask, d);
    }
    ArrivesOrSends(net, r, dst, network, mask, c);
  }
}
