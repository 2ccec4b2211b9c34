/**
 What becomes of a network: a stable state is never left, every run can settle into one, and all of
 them agree on the root exactly when the least switch is the only one with no smaller neighbour.
 */
module StpAgreement {
  import opened Common
  import opened StpSwitch
  import opened StpNetwork
  import opened StpPaths
  import opened StpStable
  import opened StpProgress
  import opened StpReplies

  // ---------------------------------------------------------------- a stable state is final

  lemma AnnouncedIsNoBetter(topo: Topology, net: Net, src: End, c: Config)
    requires Shape(topo, net) && src.sw < |net.sws| && Announced(topo, net, src, c)
    ensures !Better(c, net.sws[src.sw].Offer(src.port))
  {
  }

  /** Whatever is still in flight, a switch in a stable network accepts none of it. */
  lemma StableAcceptsNothing(topo: Topology, net: Net, ev: Event)
    requires WellFormed(topo) && Reachable(topo, net) && Enabled(net, ev)
    requires Shape(topo, net) && Stable(topo, net)
    ensures !Accepts(net, ev)
  {
    ReachableInv(topo, net);
    if ev.Deliver? {
      var p := ev.packet;
      var src := topo.peer[p.dst];
      assert topo.peer[src] == p.dst && Announced(topo, net, src, p.config);
      if DesignatedAt(net, src) {
        AnnouncedIsNoBetter(topo, net, src, p.config);
        NotBetterTransitive(p.config, net.sws[src.sw].Offer(src.port), At(net, p.dst));
      }
    }
  }

  lemma UnacceptedKeeps(topo: Topology, net: Net, ev: Event)
    requires Enabled(net, ev) && !Accepts(net, ev)
    ensures Next(topo, net, ev).sws == net.sws
  {
    if ev.Deliver? {
      var p := ev.packet;
      assert net.sws[p.dst.sw := net.sws[p.dst.sw].Handle(p.dst.port, p.config)] == net.sws;
    }
  }

  lemma RunReaches(topo: Topology, evs: seq<Event>, net: Net)
    requires |topo.ids| == |topo.nports| && Exec(topo, evs) == Some(net)
    ensures Reachable(topo, net)
  {
  }

  lemma ExecLast(topo: Topology, evs: seq<Event>, net: Net)
    requires |topo.ids| == |topo.nports| && evs != [] && Exec(topo, evs) == Some(net)
    ensures var before := Exec(topo, evs[..|evs| - 1]);
            && before.Some? && Enabled(before.value, evs[|evs| - 1])
            && net == Next(topo, before.value, evs[|evs| - 1])
  {
  }

  /** Once a run is stable no continuation changes any switch. */
  lemma {:induction false} StableForEver(topo: Topology, evs: seq<Event>, more: seq<Event>, net: Net, net': Net)
    requires WellFormed(topo) && Exec(topo, evs) == Some(net) && Exec(topo, evs + more) == Some(net')
    requires Shape(topo, net) && Stable(topo, net)
    ensures net'.sws == net.sws
  {
    if more == [] {
      assert evs + more == evs;
    } else {
      ExecLast(topo, evs + more, net');
      assert (evs + more)[..|evs + more| - 1] == evs + more[..|more| - 1];
      var mid := Exec(topo, evs + more[..|more| - 1]).value;
      StableForEver(topo, evs, more[..|more| - 1], net, mid);
      SameSwitchesSameStability(topo, net, mid);
      StableAcceptsNothing(topo, mid, more[|more| - 1]);
      UnacceptedKeeps(topo, mid, more[|more| - 1]);
    }
  }

  lemma SameSwitchesSameStability(topo: Topology, net: Net, mid: Net)
    requires WellFormed(topo) && Shape(topo, net) && mid.sws == net.sws
    ensures Shape(topo, mid) && (Stable(topo, mid) <==> Stable(topo, net))
  {
    assert forall e :: e in topo.peer ==> At(mid, topo.peer[e]) == At(net, topo.peer[e]);
    if Stable(topo, net) {
      forall e | e in topo.peer && DesignatedAt(mid, e)
        ensures !Better(mid.sws[e.sw].Offer(e.port), At(mid, topo.peer[e]))
      {
        assert DesignatedAt(net, e);
      }
    }
  }

  // ---------------------------------------------------------------- every run can settle

  lemma WireHas(topo: Topology, x: nat, s: Switch, i: nat)
    requires LocalInv(s) && i < |s.ports| && s.Designated(i) && End(x, i) in topo.peer
    ensures Packet(topo.peer[End(x, i)], s.Offer(i)) in Wire(topo, x, s.SendAll(|s.ports|))
  {
    var sends := s.SendAll(|s.ports|);
    SendsAtDesignated(s, |s.ports|, i);
    var k :| 0 <= k < |sends| && sends[k] == Sent(i, s.Offer(i));
    assert End(x, sends[k].port) in topo.peer;
  }

  /** The current offer of a designated port is in flight, unless its switch is root and will say hello. */
  ghost predicate OffersFly(topo: Topology, net: Net)
    requires WellFormed(topo) && Shape(topo, net)
  {
    forall e :: e in topo.peer && DesignatedAt(net, e) && !net.sws[e.sw].IsRoot() ==>
      Packet(topo.peer[e], net.sws[e.sw].Offer(e.port)) in net.flying
  }

  lemma NextOffersFly(topo: Topology, net: Net, ev: Event)
    requires WellFormed(topo) && Inv(topo, net) && OffersFly(topo, net) && Enabled(net, ev)
    ensures Shape(topo, Next(topo, net, ev)) && OffersFly(topo, Next(topo, net, ev))
  {
    NextDecomposed(topo, net, ev);
    var net' := Next(topo, net, ev);
    forall e | e in topo.peer && DesignatedAt(net', e) && !net'.sws[e.sw].IsRoot()
      ensures Packet(topo.peer[e], net'.sws[e.sw].Offer(e.port)) in net'.flying
    {
      if Accepts(net, ev) && e.sw == ev.packet.dst.sw {
        assert LocalInv(net'.sws[e.sw]);
        WireHas(topo, e.sw, net'.sws[e.sw], e.port);
      } else {
        assert net'.sws[e.sw] == net.sws[e.sw];
      }
    }
  }

  lemma {:induction false} ExecOffersFly(topo: Topology, evs: seq<Event>)
    requires WellFormed(topo) && Exec(topo, evs).Some?
    ensures Inv(topo, Exec(topo, evs).value) && OffersFly(topo, Exec(topo, evs).value)
  {
    ExecInv(topo, evs);
    if evs == [] {
      assert forall x: nat :: x < |topo.ids| ==> Init(topo).sws[x].IsRoot();
    } else {
      var before := evs[..|evs| - 1];
      ExecOffersFly(topo, before);
      NextOffersFly(topo, Exec(topo, before).value, evs[|evs| - 1]);
    }
  }

  lemma {:induction false} Enumerate(s: set<End>) returns (es: seq<End>)
    ensures forall e :: e in es <==> e in s
  {
    if s == {} {
      es := [];
    } else {
      var e :| e in s;
      var rest := Enumerate(s - {e});
      es := [e] + rest;
    }
  }

  /** What is left to improve at the ends `es`. */
  ghost function RankSum(topo: Topology, net: Net, es: seq<End>): nat
    requires WellFormed(topo) && Shape(topo, net) && forall e :: e in es ==> e in topo.peer
  {
    if es == [] then 0 else Rank(topo, es[0], At(net, es[0])) + RankSum(topo, net, es[1..])
  }

  lemma RunIsPlausible(topo: Topology, evs: seq<Event>, net: Net, e: End)
    requires WellFormed(topo) && Exec(topo, evs) == Some(net) && e in topo.peer
    ensures Inv(topo, net) && Plausible(topo, e, At(net, e))
  {
    ExecPaths(topo, evs);
    StoredIsPlausible(topo, net, e);
  }

  lemma RankFalls(topo: Topology, evs: seq<Event>, net: Net, ev: Event, e: End)
    requires WellFormed(topo) && Exec(topo, evs) == Some(net) && Enabled(net, ev) && e in topo.peer
    ensures Shape(topo, net) && Shape(topo, Next(topo, net, ev))
    ensures Rank(topo, e, At(Next(topo, net, ev), e)) <= Rank(topo, e, At(net, e))
    ensures Accepts(net, ev) && ev.packet.dst == e ==>
              Rank(topo, e, At(Next(topo, net, ev), e)) < Rank(topo, e, At(net, e))
  {
    var net' := Next(topo, net, ev);
    ExecOneMore(topo, evs, net, ev);
    RunIsPlausible(topo, evs, net, e);
    RunIsPlausible(topo, evs + [ev], net', e);
    StepImproves(topo, net, ev, e);
    RankFollows(topo, e, At(net, e), At(net', e));
  }

  lemma RankFollows(topo: Topology, e: End, a: Config, b: Config)
    requires WellFormed(topo) && e in topo.peer && Plausible(topo, e, a) && Plausible(topo, e, b)
    requires !Better(a, b)
    ensures Rank(topo, e, b) <= Rank(topo, e, a)
    ensures Better(b, a) ==> Rank(topo, e, b) < Rank(topo, e, a)
  {
    RankFollowsBetter(topo, e, a, b);
    RankFollowsBetter(topo, e, b, a);
  }

  lemma {:induction false} RankSumFalls(topo: Topology, evs: seq<Event>, net: Net, ev: Event, es: seq<End>)
    requires WellFormed(topo) && Exec(topo, evs) == Some(net) && Enabled(net, ev)
    requires forall e :: e in es ==> e in topo.peer
    ensures Shape(topo, net) && Shape(topo, Next(topo, net, ev))
    ensures RankSum(topo, Next(topo, net, ev), es) <= RankSum(topo, net, es)
    ensures Accepts(net, ev) && ev.packet.dst in es ==>
              RankSum(topo, Next(topo, net, ev), es) < RankSum(topo, net, es)
  {
    assert (evs + [ev])[..|evs|] == evs;
    ExecInv(topo, evs);
    ExecInv(topo, evs + [ev]);
    if es != [] {
      RankFalls(topo, evs, net, ev, es[0]);
      RankSumFalls(topo, evs, net, ev, es[1..]);
      assert Accepts(net, ev) && ev.packet.dst in es ==> ev.packet.dst == es[0] || ev.packet.dst in es[1..];
    }
  }

  /** The offer of a designated port can be put in flight. */
  lemma OfferCanFly(topo: Topology, evs: seq<Event>, net: Net, e: End, es: seq<End>)
    returns (run: seq<Event>, net': Net)
    requires WellFormed(topo) && Exec(topo, evs) == Some(net) && e in topo.peer
    requires Shape(topo, net) && DesignatedAt(net, e) && forall f :: f in es ==> f in topo.peer
    ensures evs <= run && Exec(topo, run) == Some(net') && net'.sws == net.sws
    ensures Packet(topo.peer[e], net.sws[e.sw].Offer(e.port)) in net'.flying
    ensures Shape(topo, net') && RankSum(topo, net', es) <= RankSum(topo, net, es)
  {
    if net.sws[e.sw].IsRoot() {
      HelloOffers(topo, evs, net, e);
      ExecOneMore(topo, evs, net, Hello(e.sw));
      run, net' := evs + [Hello(e.sw)], Next(topo, net, Hello(e.sw));
      RankSumFalls(topo, evs, net, Hello(e.sw), es);
    } else {
      ExecOffersFly(topo, evs);
      run, net' := evs, net;
    }
  }

  lemma HelloOffers(topo: Topology, evs: seq<Event>, net: Net, e: End)
    requires WellFormed(topo) && Exec(topo, evs) == Some(net) && e in topo.peer
    requires Shape(topo, net) && DesignatedAt(net, e) && net.sws[e.sw].IsRoot()
    ensures Enabled(net, Hello(e.sw)) && Next(topo, net, Hello(e.sw)).sws == net.sws
    ensures Packet(topo.peer[e], net.sws[e.sw].Offer(e.port)) in Next(topo, net, Hello(e.sw)).flying
  {
    ExecInv(topo, evs);
    assert LocalInv(net.sws[e.sw]);
    WireHas(topo, e.sw, net.sws[e.sw], e.port);
  }

  /** Every run can be continued to a stable state: only messages lost for ever keep a network from settling. */
  lemma EveryRunSettles(topo: Topology, evs: seq<Event>) returns (run: seq<Event>, net: Net)
    requires WellFormed(topo) && Exec(topo, evs).Some?
    ensures evs <= run && Exec(topo, run) == Some(net)
    ensures Shape(topo, net) && Stable(topo, net)
  {
    var es := Enumerate(topo.peer.Keys);
    ExecInv(topo, evs);
    run, net := SettleFrom(topo, evs, Exec(topo, evs).value, es);
  }

  lemma {:induction false} SettleFrom(topo: Topology, evs: seq<Event>, net0: Net, es: seq<End>)
    returns (run: seq<Event>, net: Net)
    requires WellFormed(topo) && Exec(topo, evs) == Some(net0) && Shape(topo, net0)
    requires forall e :: e in es <==> e in topo.peer
    ensures evs <= run && Exec(topo, run) == Some(net)
    ensures Shape(topo, net) && Stable(topo, net)
    decreases RankSum(topo, net0, es)
  {
    if Stable(topo, net0) {
      run, net := evs, net0;
    } else {
      var longer, better := OneAcceptance(topo, evs, net0, es);
      run, net := SettleFrom(topo, longer, better, es);
    }
  }

  lemma UnstableEnd(topo: Topology, net: Net) returns (e: End)
    requires WellFormed(topo) && Shape(topo, net) && !Stable(topo, net)
    ensures e in topo.peer && DesignatedAt(net, e)
    ensures Better(net.sws[e.sw].Offer(e.port), At(net, topo.peer[e]))
  {
    e :| e in topo.peer && DesignatedAt(net, e) && Better(net.sws[e.sw].Offer(e.port), At(net, topo.peer[e]));
  }

  /** Delivering an offer that improves the far end leaves less to improve. */
  lemma DeliveryLowers(topo: Topology, evs: seq<Event>, net: Net, p: Packet, es: seq<End>)
    requires WellFormed(topo) && Exec(topo, evs) == Some(net) && Shape(topo, net)
    requires p in net.flying && p.dst in topo.peer && p.dst in es && Better(p.config, At(net, p.dst))
    requires forall e :: e in es ==> e in topo.peer
    ensures Enabled(net, Deliver(p)) && Shape(topo, Next(topo, net, Deliver(p)))
    ensures RankSum(topo, Next(topo, net, Deliver(p)), es) < RankSum(topo, net, es)
  {
    RankSumFalls(topo, evs, net, Deliver(p), es);
  }

  lemma SameStored(topo: Topology, net: Net, net': Net, e: End)
    requires WellFormed(topo) && Shape(topo, net) && Shape(topo, net') && net'.sws == net.sws && e in topo.peer
    ensures At(net', e) == At(net, e)
  {
  }

  /** An unstable network can accept something more. */
  lemma OneAcceptance(topo: Topology, evs: seq<Event>, net0: Net, es: seq<End>)
    returns (run: seq<Event>, net: Net)
    requires WellFormed(topo) && Exec(topo, evs) == Some(net0) && Shape(topo, net0) && !Stable(topo, net0)
    requires forall e :: e in es <==> e in topo.peer
    ensures evs <= run && Exec(topo, run) == Some(net) && Shape(topo, net)
    ensures RankSum(topo, net, es) < RankSum(topo, net0, es)
  {
    var e := UnstableEnd(topo, net0);
    var first, net1 := OfferCanFly(topo, evs, net0, e, es);
    SameStored(topo, net0, net1, topo.peer[e]);
    var p := Packet(topo.peer[e], net0.sws[e.sw].Offer(e.port));
    DeliveryLowers(topo, first, net1, p, es);
    ExecOneMore(topo, first, net1, Deliver(p));
    run, net := first + [Deliver(p)], Next(topo, net1, Deliver(p));
  }

  // ---------------------------------------------------------------- who can stay root

  /** No linked neighbour has a smaller id. */
  ghost predicate LocalMinimum(topo: Topology, z: nat) {
    z < |topo.ids| && forall e :: e in topo.peer && e.sw == z && topo.peer[e].sw < |topo.ids| ==>
      topo.ids[z] < topo.ids[topo.peer[e].sw]
  }

  /** No port stores a root above its own switch's id. */
  lemma StoredRootIsBelow(topo: Topology, evs: seq<Event>, net: Net, f: End)
    requires WellFormed(topo) && Exec(topo, evs) == Some(net) && f in topo.peer
    ensures Shape(topo, net) && At(net, f).root <= topo.ids[f.sw]
  {
    assert [] + evs == evs;
    ExecInv(topo, evs);
    RunsImprove(topo, [], evs, Init(topo), net, f);
  }

  /** Once a network is stable, whoever is root has no smaller neighbour. */
  lemma StableRootIsLocal(topo: Topology, evs: seq<Event>, net: Net, r: nat)
    requires WellFormed(topo) && Exec(topo, evs) == Some(net)
    requires Shape(topo, net) && Stable(topo, net) && r < |net.sws| && net.sws[r].IsRoot()
    ensures LocalMinimum(topo, r)
  {
    RunReaches(topo, evs, net);
    ReachableInv(topo, net);
    StableHasOneDesignated(topo, net);
    assert LocalInv(net.sws[r]);
    forall e | e in topo.peer && e.sw == r ensures topo.ids[r] < topo.ids[topo.peer[e].sw] {
      assert DesignatedAt(net, e);
      assert At(net, topo.peer[e]).root == topo.ids[r];
      StoredRootIsBelow(topo, evs, net, topo.peer[e]);
      assert topo.peer[e].sw != r;
    }
  }

  /** In a stable network a switch has the root of the switch behind its root port. */
  lemma ParentAgrees(topo: Topology, net: Net, x: nat)
    requires WellFormed(topo) && Reachable(topo, net) && x < |net.sws|
    requires Shape(topo, net) && Stable(topo, net) && Parent(topo, net, x).Some?
    ensures Parent(topo, net, x).value < |net.sws|
    ensures net.sws[Parent(topo, net, x).value].root == net.sws[x].root
  {
    ReachableInv(topo, net);
    StableHasOneDesignated(topo, net);
    assert LocalInv(net.sws[x]);
    var e := End(x, net.sws[x].rootPort.value);
    assert topo.peer[topo.peer[e]] == e;
  }

  /** Every switch with a root port has the root of the switch behind it. */
  ghost predicate ParentsAgree(topo: Topology, net: Net)
    requires WellFormed(topo) && Shape(topo, net)
  {
    forall x: nat :: x < |net.sws| && Parent(topo, net, x).Some? ==>
      && Parent(topo, net, x).value < |net.sws|
      && net.sws[Parent(topo, net, x).value].root == net.sws[x].root
  }

  lemma {:induction false} AncestorAgrees(topo: Topology, net: Net, x: nat, n: nat)
    requires WellFormed(topo) && Shape(topo, net) && ParentsAgree(topo, net)
    requires x < |net.sws| && Ancestor(topo, net, x, n).Some?
    ensures Ancestor(topo, net, x, n).value < |net.sws|
    ensures net.sws[Ancestor(topo, net, x, n).value].root == net.sws[x].root
  {
    if n > 0 {
      AncestorAgrees(topo, net, x, n - 1);
    }
  }

  /** In a stable network every switch follows a root that has no smaller neighbour. */
  lemma RootsAreLocalMinima(topo: Topology, evs: seq<Event>, net: Net, x: nat) returns (r: nat)
    requires WellFormed(topo) && Exec(topo, evs) == Some(net)
    requires Shape(topo, net) && Stable(topo, net) && x < |net.sws|
    ensures LocalMinimum(topo, r) && net.sws[x].root == topo.ids[r]
  {
    RunReaches(topo, evs, net);
    var n := RootChainEnds(topo, net, x);
    r := Ancestor(topo, net, x, n).value;
    forall y: nat | y < |net.sws| && Parent(topo, net, y).Some?
      ensures Parent(topo, net, y).value < |net.sws| && net.sws[Parent(topo, net, y).value].root == net.sws[y].root
    {
      ParentAgrees(topo, net, y);
    }
    AncestorAgrees(topo, net, x, n);
    StableRootIsLocal(topo, evs, net, r);
    assert net.sws[r].id == topo.ids[r];
  }

  // ---------------------------------------------------------------- a local minimum can stay root

  /** Only `z` has been heard of: it is as it started, and whatever was accepted names it as root. */
  ghost predicate OnlyHeardOf(topo: Topology, net: Net, z: nat)
    requires z < |topo.ids| == |topo.nports|
  {
    && Shape(topo, net)
    && net.sws[z] == InitSwitch(topo.ids[z], topo.nports[z])
    && forall e :: HasEnd(net, e) && !DesignatedAt(net, e) ==> At(net, e).root == topo.ids[z]
  }

  /** The far ends of the first `n` ports of `z` have given up the designated role. */
  ghost predicate GaveUp(topo: Topology, net: Net, z: nat, n: nat)
    requires WellFormed(topo) && Shape(topo, net)
  {
    forall j: nat :: j < n && End(z, j) in topo.peer ==> !DesignatedAt(net, topo.peer[End(z, j)])
  }

  /** Port `i` of `z` is linked and its far end has not given up. */
  ghost predicate MustHear(topo: Topology, net: Net, z: nat, i: nat)
    requires WellFormed(topo) && Shape(topo, net)
  {
    End(z, i) in topo.peer && DesignatedAt(net, topo.peer[End(z, i)])
  }

  lemma NeighbourWouldAccept(topo: Topology, net: Net, z: nat, i: nat)
    requires WellFormed(topo) && Inv(topo, net) && LocalMinimum(topo, z) && OnlyHeardOf(topo, net, z)
    requires End(z, i) in topo.peer && DesignatedAt(net, topo.peer[End(z, i)])
    ensures Better(net.sws[z].Offer(i), At(net, topo.peer[End(z, i)]))
  {
    var f := topo.peer[End(z, i)];
    var s := net.sws[f.sw];
    assert topo.ids[z] < topo.ids[f.sw];
    assert LocalInv(s) && At(net, f) == s.Offer(f.port);
    if s.rootPort.Some? {
      var g := End(f.sw, s.rootPort.value);
      assert HasEnd(net, g) && !DesignatedAt(net, g);
    }
  }

  lemma HeardOfKept(topo: Topology, net: Net, net': Net, z: nat, f: End, c: Config)
    requires z < |topo.ids| == |topo.nports| && OnlyHeardOf(topo, net, z) && Shape(topo, net')
    requires HasEnd(net, f) && AcceptStep(net, f, c, net') && f.sw != z && c.root == topo.ids[z]
    ensures OnlyHeardOf(topo, net', z)
  {
    forall e | HasEnd(net', e) && !DesignatedAt(net', e) ensures At(net', e).root == topo.ids[z] {
      assert HasEnd(net, e);
    }
  }

  lemma GaveUpMore(topo: Topology, net: Net, net': Net, z: nat, i: nat, c: Config)
    requires WellFormed(topo) && Shape(topo, net) && Shape(topo, net') && End(z, i) in topo.peer
    requires GaveUp(topo, net, z, i) && AcceptStep(net, topo.peer[End(z, i)], c, net')
    ensures GaveUp(topo, net', z, i + 1)
  {
    forall j: nat | j < i + 1 && End(z, j) in topo.peer ensures !DesignatedAt(net', topo.peer[End(z, j)]) {
      assert HasEnd(net, topo.peer[End(z, j)]);
    }
  }

  lemma DeliveryGivesUp(topo: Topology, net: Net, z: nat, i: nat, p: Packet)
    requires WellFormed(topo) && Accepting(topo, net, p) && LocalMinimum(topo, z) && OnlyHeardOf(topo, net, z)
    requires End(z, i) in topo.peer && GaveUp(topo, net, z, i)
    requires p.dst == topo.peer[End(z, i)] && p.config.root == topo.ids[z]
    ensures var net' := Next(topo, net, Deliver(p));
            OnlyHeardOf(topo, net', z) && GaveUp(topo, net', z, i + 1)
  {
    var mid := Accepted(net, p.dst, p.config);
    AcceptedInv(topo, net, p);
    HeardOfKept(topo, net, mid, z, p.dst, p.config);
    GaveUpMore(topo, net, mid, z, i, p.config);
    SameSwitchesSameRoles(topo, mid, Next(topo, net, Deliver(p)), z, i + 1);
  }

  lemma NothingHeard(topo: Topology, z: nat)
    requires WellFormed(topo) && z < |topo.ids|
    ensures OnlyHeardOf(topo, Init(topo), z)
  {
    assert forall e :: HasEnd(Init(topo), e) ==> DesignatedAt(Init(topo), e);
  }

  /** `z` says hello and its offers arrive at its first `n` ports' far ends, before anything else happens. */
  lemma {:induction false} Announce(topo: Topology, z: nat, n: nat) returns (evs: seq<Event>, net: Net)
    requires WellFormed(topo) && LocalMinimum(topo, z) && n <= topo.nports[z]
    ensures Exec(topo, evs) == Some(net)
    ensures OnlyHeardOf(topo, net, z) && GaveUp(topo, net, z, n)
  {
    if n == 0 {
      evs, net := [], Init(topo);
      NothingHeard(topo, z);
    } else {
      evs, net := Announce(topo, z, n - 1);
      if MustHear(topo, net, z, n - 1) {
        evs, net := AnnounceOn(topo, evs, net, z, n - 1);
      }
    }
  }

  lemma AnnounceOn(topo: Topology, evs: seq<Event>, net: Net, z: nat, i: nat) returns (run: seq<Event>, net': Net)
    requires WellFormed(topo) && LocalMinimum(topo, z) && Exec(topo, evs) == Some(net)
    requires OnlyHeardOf(topo, net, z) && GaveUp(topo, net, z, i) && MustHear(topo, net, z, i)
    ensures Exec(topo, run) == Some(net')
    ensures OnlyHeardOf(topo, net', z) && GaveUp(topo, net', z, i + 1)
  {
    var e := End(z, i);
    HelloOffers(topo, evs, net, e);
    var heard := Next(topo, net, Hello(z));
    ExecOneMore(topo, evs, net, Hello(z));
    ExecInv(topo, evs + [Hello(z)]);
    SameSwitchesSameRoles(topo, net, heard, z, i);
    NeighbourWouldAccept(topo, heard, z, i);
    var p := Packet(topo.peer[e], heard.sws[z].Offer(i));
    DeliveryGivesUp(topo, heard, z, i, p);
    ExecOneMore(topo, evs + [Hello(z)], heard, Deliver(p));
    run, net' := evs + [Hello(z)] + [Deliver(p)], Next(topo, heard, Deliver(p));
  }

  lemma SameSwitchesSameRoles(topo: Topology, net: Net, net': Net, z: nat, n: nat)
    requires WellFormed(topo) && z < |topo.ids| && OnlyHeardOf(topo, net, z) && GaveUp(topo, net, z, n)
    requires net'.sws == net.sws
    ensures OnlyHeardOf(topo, net', z) && GaveUp(topo, net', z, n)
  {
    assert forall e :: HasEnd(net', e) ==> HasEnd(net, e) && At(net', e) == At(net, e);
  }

  /** A switch whose links' far ends have all given up is root. */
  lemma NobodyAbove(topo: Topology, net: Net, z: nat)
    requires WellFormed(topo) && Inv(topo, net) && z < |topo.ids| && GaveUp(topo, net, z, topo.nports[z])
    ensures net.sws[z].IsRoot()
  {
    var s := net.sws[z];
    assert LocalInv(s);
    forall i: nat | i < |s.ports| ensures s.Designated(i) {
      var e := End(z, i);
      if e in topo.peer {
        assert topo.peer[topo.peer[e]] == e;
        assert !DesignatedAt(net, topo.peer[e]);
      } else {
        assert HasEnd(net, e);
      }
    }
  }

  /** A switch without a smaller neighbour can stay root for ever: after some run no continuation
      makes it follow another. */
  lemma LocalMinimumStaysRoot(topo: Topology, z: nat) returns (evs: seq<Event>)
    requires WellFormed(topo) && LocalMinimum(topo, z)
    ensures Exec(topo, evs).Some?
    ensures forall more, net :: Exec(topo, evs + more) == Some(net) ==> z < |net.sws| && net.sws[z].IsRoot()
  {
    var net0;
    evs, net0 := Announce(topo, z, topo.nports[z]);
    forall more, net | Exec(topo, evs + more) == Some(net) ensures z < |net.sws| && net.sws[z].IsRoot() {
      ExecInv(topo, evs + more);
      forall j: nat | j < topo.nports[z] && End(z, j) in topo.peer
        ensures !DesignatedAt(net, topo.peer[End(z, j)])
      {
        RunsImprove(topo, evs, more, net0, net, topo.peer[End(z, j)]);
      }
      NobodyAbove(topo, net, z);
    }
  }

  // ---------------------------------------------------------------- when agreement is sure

  ghost predicate Least(topo: Topology, m: nat) {
    m < |topo.ids| && forall y :: 0 <= y < |topo.ids| ==> topo.ids[m] <= topo.ids[y]
  }

  lemma OnlyMinimumIsRoot(topo: Topology, net: Net, m: nat)
    requires WellFormed(topo) && Least(topo, m) && forall z :: LocalMinimum(topo, z) ==> z == m
    requires Reachable(topo, net) && Shape(topo, net) && Stable(topo, net)
    ensures forall x: nat :: x < |net.sws| ==> net.sws[x].root == topo.ids[m]
  {
    var evs :| Exec(topo, evs) == Some(net);
    forall x: nat | x < |net.sws| ensures net.sws[x].root == topo.ids[m] {
      var r := RootsAreLocalMinima(topo, evs, net, x);
    }
  }

  lemma TwoMinimaDisagree(topo: Topology, m: nat, z: nat) returns (net: Net)
    requires WellFormed(topo) && Least(topo, m) && LocalMinimum(topo, z) && z != m
    ensures Reachable(topo, net) && Shape(topo, net) && Stable(topo, net) && !AllAgree(net)
  {
    var evs := LocalMinimumStaysRoot(topo, z);
    var run;
    run, net := EveryRunSettles(topo, evs);
    assert run == evs + run[|evs|..];
    RunReaches(topo, run, net);
    LeastSwitchStaysRoot(topo, net, m);
    assert net.sws[z].root == topo.ids[z] != topo.ids[m] == net.sws[m].root;
  }

  /** Whatever the network does to its messages, all its stable states agree on the root, exactly when
      the least switch is the only one without a smaller neighbour. */
  lemma AgreementIsSureIff(topo: Topology, m: nat)
    requires WellFormed(topo) && Least(topo, m)
    ensures (forall net :: Reachable(topo, net) && Shape(topo, net) && Stable(topo, net) ==> AllAgree(net)) <==>
            (forall z :: LocalMinimum(topo, z) ==> z == m)
  {
    if forall z :: LocalMinimum(topo, z) ==> z == m {
      forall net | Reachable(topo, net) && Shape(topo, net) && Stable(topo, net) ensures AllAgree(net) {
        OnlyMinimumIsRoot(topo, net, m);
      }
    } else {
      var z :| LocalMinimum(topo, z) && z != m;
      var net := TwoMinimaDisagree(topo, m, z);
    }
  }

  /** The line of three switches splits for good: once it has, no continuation changes any switch. */
  lemma SplitForEver() returns (evs: seq<Event>)
    ensures WellFormed(LINE) && Connected(LINE)
    ensures Exec(LINE, evs) == Some(SPLIT) && !AllAgree(SPLIT) && RoleAt(SPLIT, End(0, 0)) == AlternateRole
    ensures forall more, net :: Exec(LINE, evs + more) == Some(net) ==> net.sws == SPLIT.sws
  {
    SplitDisagrees();
    evs :| Exec(LINE, evs) == Some(SPLIT);
    forall more, net | Exec(LINE, evs + more) == Some(net) ensures net.sws == SPLIT.sws {
      StableForEver(LINE, evs, more, SPLIT, net);
    }
  }
}
