/**
 What holds once resending configurations changes nothing: one designated end
 per link, a loop-free data plane, and the links across which switches can
 still disagree on the root.
 */
module StpStable {
  import opened Common
  import opened StpSwitch
  import opened StpNetwork
  import opened StpPaths

  /** No switch would accept the current offer of any designated port. */
  ghost predicate Stable(topo: Topology, net: Net)
    requires WellFormed(topo) && Shape(topo, net)
  {
    forall e :: e in topo.peer && DesignatedAt(net, e) ==>
      !Better(net.sws[e.sw].Offer(e.port), At(net, topo.peer[e]))
  }

  function RoleAt(net: Net, e: End): Role
    requires HasEnd(net, e)
  {
    net.sws[e.sw].PortRole(e.port)
  }

  /** In every reachable state each link keeps a designated end, and not two root-port ends. */
  lemma SomeEndIsDesignated(topo: Topology, net: Net, e: End)
    requires WellFormed(topo) && Reachable(topo, net) && e in topo.peer
    ensures Shape(topo, net)
    ensures DesignatedAt(net, e) || DesignatedAt(net, topo.peer[e])
    ensures RoleAt(net, e) == RootRole ==> RoleAt(net, topo.peer[e]) == DesignatedRole
  {
    ReachableInv(topo, net);
    assert LocalInv(net.sws[e.sw]) && LocalInv(net.sws[topo.peer[e].sw]);
  }

  /** In a stable state each link has exactly one designated end, and what the other end stores is its offer. */
  ghost predicate OneDesignated(topo: Topology, net: Net)
    requires WellFormed(topo) && Shape(topo, net)
  {
    forall e :: e in topo.peer ==>
      && DesignatedAt(net, e) != DesignatedAt(net, topo.peer[e])
      && (DesignatedAt(net, e) ==> At(net, topo.peer[e]) == net.sws[e.sw].Offer(e.port))
  }

  lemma StableHasOneDesignated(topo: Topology, net: Net)
    requires WellFormed(topo) && Reachable(topo, net)
    requires Shape(topo, net) && Stable(topo, net)
    ensures OneDesignated(topo, net)
  {
    ReachableInv(topo, net);
    forall e | e in topo.peer
      ensures DesignatedAt(net, e) != DesignatedAt(net, topo.peer[e])
      ensures DesignatedAt(net, e) ==> At(net, topo.peer[e]) == net.sws[e.sw].Offer(e.port)
    {
      var f := topo.peer[e];
      assert LocalInv(net.sws[e.sw]) && LocalInv(net.sws[f.sw]);
      assert topo.peer[f] == e && topo.ids[e.sw] != topo.ids[f.sw];
      if DesignatedAt(net, e) && DesignatedAt(net, f) {
        BetterTotal(net.sws[e.sw].Offer(e.port), net.sws[f.sw].Offer(f.port));
      } else if DesignatedAt(net, e) {
        assert Announced(topo, net, e, At(net, f));
      }
    }
  }

  // ---------------------------------------------------------------- the data plane has no loop

  /** Data frames cross a link unless one of its ends is ALTERNATE. */
  ghost predicate Active(topo: Topology, net: Net, e: End)
    requires WellFormed(topo) && Shape(topo, net)
  {
    e in topo.peer && RoleAt(net, e) != AlternateRole && RoleAt(net, topo.peer[e]) != AlternateRole
  }

  /** `w` lists the ports through which a flooded frame leaves switch after switch: it crosses
      active links only and never leaves by the port it came in. */
  ghost predicate Flood(topo: Topology, net: Net, w: seq<End>)
    requires WellFormed(topo) && Shape(topo, net)
  {
    && (forall k :: 0 <= k < |w| ==> Active(topo, net, w[k]))
    && forall k :: 0 <= k < |w| - 1 ==>
         w[k + 1].sw == topo.peer[w[k]].sw && w[k + 1] != topo.peer[w[k]]
  }

  ghost predicate Up(net: Net, e: End) {
    e.sw < |net.sws| && net.sws[e.sw].rootPort == Some(e.port)
  }

  /** Every active link is the root port of exactly one of its ends, and distances agree with that. */
  ghost predicate Oriented(topo: Topology, net: Net)
    requires WellFormed(topo) && Shape(topo, net)
  {
    forall e :: Active(topo, net, e) ==>
      && topo.peer[topo.peer[e]] == e
      && Up(net, e) != Up(net, topo.peer[e])
      && (Up(net, e) ==> Lower(net, topo.peer[e].sw, e.sw))
  }

  ghost predicate Lower(net: Net, x: nat, y: nat) {
    && x < |net.sws| && y < |net.sws|
    && LexLess(net.sws[x].root, net.sws[x].cost, net.sws[y].root, net.sws[y].cost)
  }

  lemma StableIsOriented(topo: Topology, net: Net)
    requires WellFormed(topo) && Reachable(topo, net)
    requires Shape(topo, net) && Stable(topo, net)
    ensures Oriented(topo, net)
  {
    ReachableInv(topo, net);
    StableHasOneDesignated(topo, net);
    RootPortsDescend(topo, net);
    forall e | Active(topo, net, e)
      ensures topo.peer[topo.peer[e]] == e && Up(net, e) != Up(net, topo.peer[e])
      ensures Up(net, e) ==> Lower(net, topo.peer[e].sw, e.sw)
    {
      assert LocalInv(net.sws[e.sw]) && LocalInv(net.sws[topo.peer[e].sw]);
      if Up(net, e) {
        assert Parent(topo, net, e.sw) == Some(topo.peer[e].sw);
      }
    }
  }

  /** Once a flood goes down it keeps going down. */
  lemma {:induction false} DownStaysDown(topo: Topology, net: Net, w: seq<End>)
    requires WellFormed(topo) && Shape(topo, net) && Oriented(topo, net)
    requires Flood(topo, net, w) && |w| > 0 && !Up(net, w[0])
    ensures Lower(net, w[0].sw, topo.peer[w[|w| - 1]].sw) && !Up(net, w[|w| - 1])
  {
    assert Lower(net, w[0].sw, topo.peer[w[0]].sw);
    if |w| > 1 {
      assert Up(net, topo.peer[w[0]]) && !Up(net, w[1]);
      assert forall k :: 0 <= k < |w[1..]| ==> w[1..][k] == w[k + 1];
      DownStaysDown(topo, net, w[1..]);
    }
  }

  /** A flood whose last hop goes up went up all the way. */
  lemma {:induction false} UpWasUp(topo: Topology, net: Net, w: seq<End>)
    requires WellFormed(topo) && Shape(topo, net) && Oriented(topo, net)
    requires Flood(topo, net, w) && |w| > 0 && Up(net, w[|w| - 1])
    ensures Lower(net, topo.peer[w[|w| - 1]].sw, w[0].sw)
  {
    if !Up(net, w[0]) {
      DownStaysDown(topo, net, w);
    }
    assert Lower(net, topo.peer[w[0]].sw, w[0].sw);
    if |w| > 1 {
      assert forall k :: 0 <= k < |w[1..]| ==> w[1..][k] == w[k + 1];
      UpWasUp(topo, net, w[1..]);
    }
  }

  lemma {:induction false} NoClosedFlood(topo: Topology, net: Net, w: seq<End>)
    requires WellFormed(topo) && Shape(topo, net) && Oriented(topo, net)
    requires Flood(topo, net, w) && |w| > 0
    ensures topo.peer[w[|w| - 1]].sw != w[0].sw
  {
    var last := w[|w| - 1];
    if topo.peer[last].sw == w[0].sw {
      if !Up(net, w[0]) {
        DownStaysDown(topo, net, w);
      } else if Up(net, last) {
        UpWasUp(topo, net, w);
      } else {
        assert Active(topo, net, last) && Up(net, topo.peer[last]);
        assert topo.peer[last] == w[0] && last == topo.peer[w[0]];
        if |w| > 2 {
          var inner := w[1..|w| - 1];
          assert forall k :: 0 <= k < |inner| ==> inner[k] == w[k + 1];
          NoClosedFlood(topo, net, inner);
        }
      }
    }
  }

  /** The switches a flood passes, first to last. */
  function Visited(topo: Topology, w: seq<End>): seq<nat>
    requires forall k :: 0 <= k < |w| ==> w[k] in topo.peer
  {
    if w == [] then [] else [w[0].sw] + seq(|w|, k requires 0 <= k < |w| => topo.peer[w[k]].sw)
  }

  lemma VisitedAre(topo: Topology, net: Net, w: seq<End>)
    requires WellFormed(topo) && Shape(topo, net) && Flood(topo, net, w)
    ensures forall k :: 0 <= k < |w| ==> w[k] in topo.peer
    ensures forall j :: 0 <= j < |w| ==> Visited(topo, w)[j] == w[j].sw
    ensures forall j :: 0 < j <= |w| ==> Visited(topo, w)[j] == topo.peer[w[j - 1]].sw
    ensures forall j :: 0 <= j < |Visited(topo, w)| ==> Visited(topo, w)[j] < |topo.ids|
  {
    assert forall k :: 0 <= k < |w| ==> Active(topo, net, w[k]);
    forall j | 0 < j < |w| ensures w[j].sw == topo.peer[w[j - 1]].sw {
      assert w[(j - 1) + 1].sw == topo.peer[w[j - 1]].sw;
    }
  }

  lemma VisitedDiffer(topo: Topology, net: Net, w: seq<End>, i: nat, j: nat)
    requires WellFormed(topo) && Shape(topo, net) && Oriented(topo, net)
    requires Flood(topo, net, w) && i < j <= |w|
    ensures w[i].sw != topo.peer[w[j - 1]].sw
  {
    var part := w[i..j];
    assert forall k :: 0 <= k < |part| ==> part[k] == w[i + k];
    NoClosedFlood(topo, net, part);
  }

  /** In a stable state no flooded frame reaches a switch twice, so every flood dies out within
      as many hops as there are switches: no broadcast storm. */
  lemma FloodsAreLoopFree(topo: Topology, net: Net, w: seq<End>)
    requires WellFormed(topo) && Reachable(topo, net)
    requires Shape(topo, net) && Stable(topo, net) && Flood(topo, net, w)
    ensures forall k :: 0 <= k < |w| ==> w[k] in topo.peer
    ensures Distinct(Visited(topo, w))
    ensures |w| == 0 || |w| < |topo.ids|
  {
    StableIsOriented(topo, net);
    VisitedAre(topo, net, w);
    var v := Visited(topo, w);
    forall i, j | 0 <= i < j < |v| ensures v[i] != v[j] {
      VisitedDiffer(topo, net, w, i, j);
    }
    Pigeonhole(v, |topo.ids|);
  }

  // ---------------------------------------------------------------- agreement on the root

  ghost predicate IsWalk(topo: Topology, xs: seq<nat>) {
    |xs| > 0 && forall k :: 0 <= k < |xs| - 1 ==> Adjacent(topo, xs[k], xs[k + 1])
  }

  ghost predicate Linked(topo: Topology, x: nat, y: nat) {
    exists xs: seq<nat> :: IsWalk(topo, xs) && xs[0] == x && xs[|xs| - 1] == y
  }

  ghost predicate Connected(topo: Topology) {
    forall x: nat, y: nat :: x < |topo.ids| && y < |topo.ids| ==> Linked(topo, x, y)
  }

  ghost predicate AllAgree(net: Net) {
    forall x: nat, y: nat :: x < |net.sws| && y < |net.sws| ==> net.sws[x].root == net.sws[y].root
  }

  /** Every blocked port still records the root its switch now believes in. */
  ghost predicate NoStaleAlternate(topo: Topology, net: Net)
    requires WellFormed(topo) && Shape(topo, net)
  {
    forall e :: e in topo.peer && RoleAt(net, e) == AlternateRole ==> At(net, e).root == net.sws[e.sw].root
  }

  lemma {:induction false} WalkAgrees(topo: Topology, net: Net, xs: seq<nat>)
    requires WellFormed(topo) && Shape(topo, net) && IsWalk(topo, xs)
    requires forall k :: 0 <= k < |xs| ==> xs[k] < |net.sws|
    requires forall e :: e in topo.peer ==> net.sws[e.sw].root == net.sws[topo.peer[e].sw].root
    ensures net.sws[xs[0]].root == net.sws[xs[|xs| - 1]].root
  {
    if |xs| > 1 {
      assert Adjacent(topo, xs[0], xs[1]);
      assert forall k :: 0 <= k < |xs[1..]| ==> xs[1..][k] == xs[k + 1];
      WalkAgrees(topo, net, xs[1..]);
    }
  }

  lemma LinksAgree(topo: Topology, net: Net)
    requires WellFormed(topo) && Reachable(topo, net)
    requires Shape(topo, net) && Stable(topo, net) && NoStaleAlternate(topo, net)
    ensures forall e :: e in topo.peer ==> net.sws[e.sw].root == net.sws[topo.peer[e].sw].root
  {
    ReachableInv(topo, net);
    StableHasOneDesignated(topo, net);
    forall e | e in topo.peer ensures net.sws[e.sw].root == net.sws[topo.peer[e].sw].root {
      var f := if DesignatedAt(net, e) then topo.peer[e] else e;
      assert topo.peer[topo.peer[e]] == e;
      assert LocalInv(net.sws[f.sw]);
      assert DesignatedAt(net, topo.peer[f]) && !DesignatedAt(net, f);
    }
  }

  /** Only links that end in an ALTERNATE port can separate roots: a stable connected network agrees
      exactly when no such port records a root its own switch has moved on from. */
  lemma AgreementIff(topo: Topology, net: Net)
    requires WellFormed(topo) && Reachable(topo, net) && Connected(topo)
    requires Shape(topo, net) && Stable(topo, net)
    ensures AllAgree(net) <==> NoStaleAlternate(topo, net)
  {
    if NoStaleAlternate(topo, net) {
      LinksAgree(topo, net);
      forall x: nat, y: nat | x < |net.sws| && y < |net.sws|
        ensures net.sws[x].root == net.sws[y].root
      {
        assert Linked(topo, x, y);
        var xs: seq<nat> :| IsWalk(topo, xs) && xs[0] == x && xs[|xs| - 1] == y;
        WalkStaysInside(topo, xs);
        WalkAgrees(topo, net, xs);
      }
    }
    if AllAgree(net) {
      StableHasOneDesignated(topo, net);
    }
  }

  lemma WalkStaysInside(topo: Topology, xs: seq<nat>)
    requires WellFormed(topo) && IsWalk(topo, xs) && xs[0] < |topo.ids|
    ensures forall k :: 0 <= k < |xs| ==> xs[k] < |topo.ids|
  {
    forall k | 0 < k < |xs| ensures xs[k] < |topo.ids| {
      assert Adjacent(topo, xs[k - 1], xs[(k - 1) + 1]);
    }
  }

  /** Under that condition the root is the least switch, and root ports lead every switch to it. */
  lemma AgreedRootIsLeast(topo: Topology, net: Net, m: nat, x: nat)
    requires WellFormed(topo) && Reachable(topo, net) && Connected(topo)
    requires Shape(topo, net) && Stable(topo, net) && NoStaleAlternate(topo, net)
    requires m < |topo.ids| && forall y :: 0 <= y < |topo.ids| ==> topo.ids[m] <= topo.ids[y]
    requires x < |net.sws|
    ensures net.sws[x].root == topo.ids[m]
    ensures exists n: nat :: n < |net.sws| && Ancestor(topo, net, x, n) == Some(m)
  {
    AgreedRoot(topo, net, m);
    var n := RootChainEnds(topo, net, x);
    OnlyOneHasId(topo, net, Ancestor(topo, net, x, n).value, m);
  }

  lemma AgreedRoot(topo: Topology, net: Net, m: nat)
    requires WellFormed(topo) && Reachable(topo, net) && Connected(topo)
    requires Shape(topo, net) && Stable(topo, net) && NoStaleAlternate(topo, net)
    requires m < |topo.ids| && forall y :: 0 <= y < |topo.ids| ==> topo.ids[m] <= topo.ids[y]
    ensures forall y :: 0 <= y < |net.sws| ==> net.sws[y].root == topo.ids[m]
  {
    AgreementIff(topo, net);
    LeastSwitchStaysRoot(topo, net, m);
  }

  lemma OnlyOneHasId(topo: Topology, net: Net, y: nat, m: nat)
    requires WellFormed(topo) && Shape(topo, net) && y < |net.sws| && m < |net.sws|
    requires net.sws[y].IsRoot() && net.sws[y].root == topo.ids[m]
    ensures y == m
  {
    assert net.sws[y].id == topo.ids[y];
  }

  lemma RootChainEnds(topo: Topology, net: Net, x: nat) returns (n: nat)
    requires WellFormed(topo) && Reachable(topo, net) && x < |net.sws|
    ensures n < |net.sws| && Ancestor(topo, net, x, n).Some?
    ensures Ancestor(topo, net, x, n).value < |net.sws| && net.sws[Ancestor(topo, net, x, n).value].IsRoot()
  {
    RootPortsNeverCycle(topo, net, x);
    n :| n < |net.sws| && Ancestor(topo, net, x, n).Some?
         && Ancestor(topo, net, x, n).value < |net.sws|
         && net.sws[Ancestor(topo, net, x, n).value].IsRoot();
  }

  // ---------------------------------------------------------------- a run that stays split

  /** Three switches in a line: 3 in the middle, 2 and 1 at its ends. */
  const LINE := Topology([3, 2, 1], [2, 1, 1],
                         map[End(0, 0) := End(1, 0), End(1, 0) := End(0, 0),
                             End(0, 1) := End(2, 0), End(2, 0) := End(0, 1)])

  const FROM_TWO := Packet(End(0, 0), Config(2, 0, 2, 0x8001))
  const FROM_ONE := Packet(End(0, 1), Config(1, 0, 1, 0x8001))

  const MIDDLE := Switch(3, 1, 1, Some(1), [Config(2, 0, 2, 0x8001), Config(1, 0, 1, 0x8001)], false)
  const SPLIT := Net([MIDDLE, InitSwitch(2, 1), InitSwitch(1, 1)],
                     {FROM_TWO, Packet(End(2, 0), Config(2, 1, 3, 0x8002)), FROM_ONE})

  lemma OnePortSends(id: nat)
    ensures InitSwitch(id, 1).SendAll(1) == [Sent(0, Config(id, 0, id, 0x8001))]
  {
    assert InitSwitch(id, 1).SendAll(0) == [];
  }

  lemma MiddleHearsTwo()
    ensures var s := InitSwitch(3, 2).Accept(0, FROM_TWO.config);
            && s == Switch(3, 2, 1, Some(0), [Config(2, 0, 2, 0x8001), Config(2, 1, 3, 0x8002)], false)
            && s.SendAll(2) == [Sent(1, Config(2, 1, 3, 0x8002))]
  {
    var s0 := InitSwitch(3, 2);
    var s1 := s0.(ports := s0.ports[0 := FROM_TWO.config]);
    assert s1.BestPort(0) == None && s1.BestPort(1) == Some(0) && s1.BestPort(2) == Some(0);
    var s2 := s1.UpdateStatus();
    assert s2.UpdatePorts(0) == s2 && s2.UpdatePorts(1) == s2;
    assert s2.UpdatePorts(2) == s2.UpdatePort(1);
    var s := s0.Accept(0, FROM_TWO.config);
    assert s.ports == [Config(2, 0, 2, 0x8001), Config(2, 1, 3, 0x8002)];
    assert s.SendAll(0) == [] && s.SendAll(1) == [];
  }

  lemma MiddleHearsOne()
    ensures var s := Switch(3, 2, 1, Some(0), [Config(2, 0, 2, 0x8001), Config(2, 1, 3, 0x8002)], false);
            s.Accept(1, FROM_ONE.config) == MIDDLE && MIDDLE.SendAll(2) == []
  {
    var s := Switch(3, 2, 1, Some(0), [Config(2, 0, 2, 0x8001), Config(2, 1, 3, 0x8002)], false);
    var s1 := s.(ports := s.ports[1 := FROM_ONE.config]);
    assert s1.ports == MIDDLE.ports;
    assert s1.BestPort(0) == None && s1.BestPort(1) == Some(0) && s1.BestPort(2) == Some(1);
    var s2 := s1.UpdateStatus();
    assert Better(s2.ports[1], s2.ports[0]) && !s2.Designated(1);
    assert s2.UpdatePorts(0) == s2 && s2.UpdatePorts(1) == s2 && s2.UpdatePorts(2) == s2;
    assert MIDDLE.SendAll(0) == [] && MIDDLE.SendAll(1) == [];
  }

  lemma ExecOneMore(topo: Topology, evs: seq<Event>, net: Net, ev: Event)
    requires |topo.ids| == |topo.nports| && Exec(topo, evs) == Some(net) && Enabled(net, ev)
    ensures Exec(topo, evs + [ev]) == Some(Next(topo, net, ev))
  {
    assert (evs + [ev])[..|evs|] == evs;
  }

  lemma MiddleLearnsOfTwo() returns (evs: seq<Event>)
    ensures Exec(LINE, evs) ==
            Some(Net([Switch(3, 2, 1, Some(0), [Config(2, 0, 2, 0x8001), Config(2, 1, 3, 0x8002)], false),
                      InitSwitch(2, 1), InitSwitch(1, 1)],
                     {FROM_TWO, Packet(End(2, 0), Config(2, 1, 3, 0x8002))}))
  {
    var n0 := Init(LINE);
    assert n0.sws == [InitSwitch(3, 2), InitSwitch(2, 1), InitSwitch(1, 1)];
    OnePortSends(2);
    WireOne(LINE, 1, Sent(0, FROM_TWO.config));
    var n1 := Next(LINE, n0, Hello(1));
    assert n1 == Net(n0.sws, {FROM_TWO});
    MiddleHearsTwo();
    WireOne(LINE, 0, Sent(1, Config(2, 1, 3, 0x8002)));
    assert Exec(LINE, []) == Some(n0);
    ExecOneMore(LINE, [], n0, Hello(1));
    ExecOneMore(LINE, [] + [Hello(1)], n1, Deliver(FROM_TWO));
    evs := [] + [Hello(1)] + [Deliver(FROM_TWO)];
    var n2 := Next(LINE, n1, Deliver(FROM_TWO));
    assert n2.sws[0] == Switch(3, 2, 1, Some(0), [Config(2, 0, 2, 0x8001), Config(2, 1, 3, 0x8002)], false);
    assert n2.sws == [n2.sws[0], InitSwitch(2, 1), InitSwitch(1, 1)];
    assert n2.flying == {FROM_TWO, Packet(End(2, 0), Config(2, 1, 3, 0x8002))};
  }

  /** Switch 3 hears from 2, then from 1. */
  lemma SplitIsReached()
    ensures Reachable(LINE, SPLIT)
  {
    var evs := MiddleLearnsOfTwo();
    var n2 := Exec(LINE, evs).value;
    OnePortSends(1);
    WireOne(LINE, 2, Sent(0, FROM_ONE.config));
    var n3 := Next(LINE, n2, Hello(2));
    assert n3 == Net(n2.sws, n2.flying + {FROM_ONE});
    MiddleHearsOne();
    ExecOneMore(LINE, evs, n2, Hello(2));
    ExecOneMore(LINE, evs + [Hello(2)], n3, Deliver(FROM_ONE));
    var n4 := Next(LINE, n3, Deliver(FROM_ONE));
    assert n4.sws == SPLIT.sws;
    assert n4.flying == SPLIT.flying;
  }

  lemma LineIsWellFormed()
    ensures WellFormed(LINE)
  {
    var peer := LINE.peer;
    forall e | e in peer
      ensures && e.sw < 3 && e.port < LINE.nports[e.sw]
              && peer[e] in peer && peer[peer[e]] == e && peer[e].sw != e.sw
    {
      LinePeers(e);
      LinePeers(peer[e]);
    }
    assert Distinct(LINE.ids);
  }

  lemma LinePeers(e: End)
    requires e in LINE.peer
    ensures LINE.peer[e] == if e == End(0, 0) then End(1, 0) else if e == End(1, 0) then End(0, 0)
                            else if e == End(0, 1) then End(2, 0) else End(0, 1)
    ensures e == End(0, 0) || e == End(1, 0) || e == End(0, 1) || e == End(2, 0)
    ensures LINE.peer[e] in LINE.peer
  {
  }

  lemma LineIsConnected()
    ensures Connected(LINE)
  {
    assert Adjacent(LINE, 0, 1) by { assert End(0, 0) in LINE.peer; }
    assert Adjacent(LINE, 1, 0) by { assert End(1, 0) in LINE.peer; }
    assert Adjacent(LINE, 0, 2) by { assert End(0, 1) in LINE.peer; }
    assert Adjacent(LINE, 2, 0) by { assert End(2, 0) in LINE.peer; }
    forall x: nat, y: nat | x < |LINE.ids| && y < |LINE.ids| ensures Linked(LINE, x, y) {
      if x == y {
        WalkLinks(LINE, [x]);
      } else if x == 0 || y == 0 {
        WalkLinks(LINE, [x, y]);
      } else {
        WalkLinks(LINE, [x, 0, y]);
      }
    }
  }

  lemma WalkLinks(topo: Topology, xs: seq<nat>)
    requires |xs| > 0 && forall k :: 0 <= k < |xs| - 1 ==> Adjacent(topo, xs[k], xs[k + 1])
    ensures Linked(topo, xs[0], xs[|xs| - 1])
  {
    assert IsWalk(topo, xs);
  }

  lemma SplitIsStable()
    ensures WellFormed(LINE) && Shape(LINE, SPLIT) && Stable(LINE, SPLIT)
  {
    LineIsWellFormed();
    assert SPLIT.sws[0] == MIDDLE && SPLIT.sws[1] == InitSwitch(2, 1) && SPLIT.sws[2] == InitSwitch(1, 1);
    forall e | e in LINE.peer && DesignatedAt(SPLIT, e)
      ensures !Better(SPLIT.sws[e.sw].Offer(e.port), At(SPLIT, LINE.peer[e]))
    {
      LinePeers(e);
    }
  }

  /** Agreement fails on a reachable stable state: switch 3's port to 2 stays ALTERNATE with a
      stale root, so 2 never learns of 1 and the line is cut in two. */
  lemma SplitDisagrees()
    ensures WellFormed(LINE) && Connected(LINE)
    ensures Reachable(LINE, SPLIT) && Shape(LINE, SPLIT) && Stable(LINE, SPLIT)
    ensures !AllAgree(SPLIT) && !NoStaleAlternate(LINE, SPLIT)
    ensures RoleAt(SPLIT, End(0, 0)) == AlternateRole
  {
    LineIsConnected();
    SplitIsReached();
    SplitIsStable();
    assert SPLIT.sws[0].root != SPLIT.sws[1].root;
    assert End(0, 0) in LINE.peer && At(SPLIT, End(0, 0)).root != SPLIT.sws[0].root;
  }
}
