/** Port vectors only improve, so in any run each port accepts boundedly many configurations. */
module StpProgress {
  import opened Common
  import opened StpSwitch
  import opened StpNetwork
  import opened StpPaths

  function IdSet(ids: seq<nat>): set<nat> {
    set v | v in ids
  }

  function Below(ids: seq<nat>, r: nat): set<nat> {
    set v | v in ids && v < r
  }

  /** How many switch ids are below `r`. */
  function RootRank(topo: Topology, r: nat): nat {
    |Below(topo.ids, r)|
  }

  lemma {:induction false} IdsAreFew(ids: seq<nat>)
    ensures |IdSet(ids)| <= |ids|
  {
    if ids == [] {
      assert IdSet(ids) == {};
    } else {
      IdsAreFew(ids[1..]);
      assert IdSet(ids) == IdSet(ids[1..]) + {ids[0]};
    }
  }

  lemma RootRankOrder(topo: Topology, a: nat, b: nat)
    requires a in topo.ids && b in topo.ids
    ensures a < b ==> RootRank(topo, a) < RootRank(topo, b)
    ensures RootRank(topo, a) < |topo.ids|
  {
    IdsAreFew(topo.ids);
    assert a in IdSet(topo.ids) && a !in Below(topo.ids, a);
    Smaller(Below(topo.ids, a), IdSet(topo.ids));
    if a < b {
      assert a in Below(topo.ids, b);
      Smaller(Below(topo.ids, a), Below(topo.ids, b));
    }
  }

  lemma Smaller(a: set<nat>, b: set<nat>)
    requires a < b
    ensures |a| < |b|
  {
    assert b == a + (b - a) && b - a != {};
  }

  /** 0 for the lower, 1 for the higher of the two switch ids that can stand at an end. */
  function SideRank(topo: Topology, e: End, sw: nat): nat
    requires WellFormed(topo) && e in topo.peer
  {
    if topo.ids[e.sw] < sw || topo.ids[topo.peer[e].sw] < sw then 1 else 0
  }

  /** A number that falls whenever the vector stored at `e` improves. */
  function Rank(topo: Topology, e: End, c: Config): nat
    requires WellFormed(topo) && e in topo.peer
  {
    2 * (RootRank(topo, c.root) * |topo.ids| + c.cost) + SideRank(topo, e, c.sw)
  }

  /** What a linked end can store: its own offer or its peer's, about a real root at a real distance. */
  ghost predicate Plausible(topo: Topology, e: End, c: Config)
    requires WellFormed(topo) && e in topo.peer
  {
    && c.root in topo.ids && c.cost < |topo.ids|
    && (|| (c.sw == topo.ids[e.sw] && c.port == PortId(e.port))
        || (c.sw == topo.ids[topo.peer[e].sw] && c.port == PortId(topo.peer[e].port)))
  }

  lemma RankFollowsBetter(topo: Topology, e: End, a: Config, b: Config)
    requires WellFormed(topo) && e in topo.peer && Plausible(topo, e, a) && Plausible(topo, e, b)
    ensures Better(a, b) <==> Rank(topo, e, a) < Rank(topo, e, b)
    ensures Rank(topo, e, a) < 2 * |topo.ids| * |topo.ids|
  {
    RootRankOrder(topo, a.root, b.root);
    RootRankOrder(topo, b.root, a.root);
    SideFollowsBetter(topo, e, a, b);
    RankIsLexicographic(RootRank(topo, a.root), RootRank(topo, b.root), a.cost, b.cost,
                        SideRank(topo, e, a.sw), SideRank(topo, e, b.sw), |topo.ids|);
  }

  lemma SideFollowsBetter(topo: Topology, e: End, a: Config, b: Config)
    requires WellFormed(topo) && e in topo.peer && Plausible(topo, e, a) && Plausible(topo, e, b)
    ensures a.root == b.root && a.cost == b.cost ==>
              (Better(a, b) <==> SideRank(topo, e, a.sw) < SideRank(topo, e, b.sw))
  {
    assert topo.ids[e.sw] != topo.ids[topo.peer[e].sw];
  }

  lemma RankIsLexicographic(ra: nat, rb: nat, ca: nat, cb: nat, sa: nat, sb: nat, n: nat)
    requires ca < n && cb < n && sa <= 1 && sb <= 1 && ra < n && rb < n
    ensures 2 * (ra * n + ca) + sa < 2 * (rb * n + cb) + sb
            <==> ra < rb || (ra == rb && (ca < cb || (ca == cb && sa < sb)))
    ensures 2 * (ra * n + ca) + sa < 2 * n * n
  {
    var va, vb := ra * n + ca, rb * n + cb;
    assert va < vb <==> ra < rb || (ra == rb && ca < cb) by {
      Stacked(ra, rb, ca, cb, n);
      Stacked(rb, ra, cb, ca, n);
    }
    assert va == vb <==> ra == rb && ca == cb by {
      Stacked(ra, rb, ca, cb, n);
      Stacked(rb, ra, cb, ca, n);
    }
    assert 2 * va + sa < 2 * n * n by {
      Stacked(ra, n, ca, 0, n);
      assert 2 * n * n == 2 * (n * n);
    }
  }

  lemma Stacked(ra: nat, rb: nat, ca: nat, cb: nat, n: nat)
    requires ca < n
    ensures ra < rb ==> ra * n + ca < rb * n + cb
  {
    if ra < rb {
      assert (ra + 1) * n <= rb * n;
    }
  }

  lemma StoredIsPlausible(topo: Topology, net: Net, e: End)
    requires WellFormed(topo) && Inv(topo, net) && PathInv(topo, net) && e in topo.peer
    ensures Plausible(topo, e, At(net, e))
  {
    assert HasEnd(net, e);
    if DesignatedAt(net, e) {
      DesignatedHoldsOffer(topo, net, e);
      PathBounds(topo, net, e.sw, At(net, e).root, At(net, e).cost);
    } else {
      assert Announced(topo, net, topo.peer[e], At(net, e));
      PathBounds(topo, net, topo.peer[e].sw, At(net, e).root, At(net, e).cost);
    }
  }

  lemma DesignatedHoldsOffer(topo: Topology, net: Net, e: End)
    requires Shape(topo, net) && AllLocal(net) && HasEnd(net, e) && DesignatedAt(net, e)
    ensures At(net, e) == net.sws[e.sw].Offer(e.port)
  {
  }

  /** One event: no port vector gets worse, an accepting port's vector gets strictly better, and a
      port that is not designated is not designated afterwards. */
  lemma StepImproves(topo: Topology, net: Net, ev: Event, e: End)
    requires WellFormed(topo) && Inv(topo, net) && Enabled(net, ev) && e in topo.peer
    ensures var net' := Next(topo, net, ev);
            && Inv(topo, net')
            && !Better(At(net, e), At(net', e))
            && (DesignatedAt(net', e) ==> DesignatedAt(net, e))
            && (Accepts(net, ev) && ev.packet.dst == e ==>
                  Better(At(net', e), At(net, e)) && !DesignatedAt(net', e))
  {
    NextInv(topo, net, ev);
    NextDecomposed(topo, net, ev);
    if Accepts(net, ev) {
      AcceptedInv(topo, net, ev.packet);
    }
    assert HasEnd(net, e);
  }

  /** How many deliveries the run `evs` accepts at `e`. */
  ghost function AcceptCount(topo: Topology, evs: seq<Event>, e: End): nat
    requires |topo.ids| == |topo.nports| && Exec(topo, evs).Some?
  {
    if evs == [] then 0
    else
      var before, ev := evs[..|evs| - 1], evs[|evs| - 1];
      AcceptCount(topo, before, e)
      + if Accepts(Exec(topo, before).value, ev) && ev.packet.dst == e then 1 else 0
  }

  lemma {:induction false} AcceptsSpendRank(topo: Topology, evs: seq<Event>, e: End)
    requires WellFormed(topo) && Exec(topo, evs).Some? && e in topo.peer
    ensures Inv(topo, Exec(topo, evs).value)
    ensures AcceptCount(topo, evs, e) + Rank(topo, e, At(Exec(topo, evs).value, e)) < 2 * |topo.ids| * |topo.ids|
  {
    ExecPaths(topo, evs);
    StoredIsPlausible(topo, Exec(topo, evs).value, e);
    var after := At(Exec(topo, evs).value, e);
    if evs == [] {
      RankFollowsBetter(topo, e, after, after);
    } else {
      var before, ev := evs[..|evs| - 1], evs[|evs| - 1];
      AcceptsSpendRank(topo, before, e);
      ExecPaths(topo, before);
      var net := Exec(topo, before).value;
      StoredIsPlausible(topo, net, e);
      StepImproves(topo, net, ev, e);
      RankFollowsBetter(topo, e, after, At(net, e));
      RankFollowsBetter(topo, e, At(net, e), after);
    }
  }

  /** In any run, however long and however messages are duplicated, each of the N switches' linked
      ports accepts fewer than 2 N^2 configurations, and host ports accept none. */
  lemma AcceptsAreBounded(topo: Topology, evs: seq<Event>, e: End)
    requires WellFormed(topo) && Exec(topo, evs).Some?
    ensures e in topo.peer ==> AcceptCount(topo, evs, e) < 2 * |topo.ids| * |topo.ids|
    ensures e !in topo.peer ==> AcceptCount(topo, evs, e) == 0
  {
    if e in topo.peer {
      AcceptsSpendRank(topo, evs, e);
    } else {
      HostPortsAcceptNothing(topo, evs, e);
    }
  }

  lemma {:induction false} HostPortsAcceptNothing(topo: Topology, evs: seq<Event>, e: End)
    requires WellFormed(topo) && Exec(topo, evs).Some? && e !in topo.peer
    ensures AcceptCount(topo, evs, e) == 0
  {
    if evs != [] {
      HostPortsAcceptNothing(topo, evs[..|evs| - 1], e);
      ExecInv(topo, evs[..|evs| - 1]);
    }
  }

  lemma LinkedEndsExist(topo: Topology, net: Net, e: End)
    requires WellFormed(topo) && Inv(topo, net) && e in topo.peer
    ensures HasEnd(net, e)
  {
  }

  /** Over a whole run what a port stores never gets worse, and a port that is no longer
      designated never is again. */
  lemma {:induction false} RunsImprove(topo: Topology, evs: seq<Event>, more: seq<Event>, net: Net, net': Net, e: End)
    requires WellFormed(topo) && e in topo.peer
    requires Exec(topo, evs) == Some(net) && Exec(topo, evs + more) == Some(net')
    ensures HasEnd(net, e) && HasEnd(net', e)
    ensures !Better(At(net, e), At(net', e))
    ensures DesignatedAt(net', e) ==> DesignatedAt(net, e)
  {
    if more == [] {
      assert evs + more == evs;
      ExecInv(topo, evs);
      LinkedEndsExist(topo, net, e);
    } else {
      var before := evs + more[..|more| - 1];
      assert (evs + more)[..|evs + more| - 1] == before;
      var mid := Exec(topo, before).value;
      RunsImprove(topo, evs, more[..|more| - 1], net, mid, e);
      ExecInv(topo, before);
      StepImproves(topo, mid, more[|more| - 1], e);
      NotBetterTransitive(At(net, e), At(mid, e), At(net', e));
    }
  }
}
