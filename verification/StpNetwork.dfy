/**
 The spanning tree protocol on a network of switches joined by point-to-point
 links. Configuration messages may be lost, delayed, reordered and duplicated:
 a message once sent stays deliverable for ever and need never be delivered.
 */
module StpNetwork {
  import opened Common
  import opened StpSwitch

  /** Port `port` of the switch with index `sw`. */
  datatype End = End(sw: nat, port: nat)

  /** Switch ids, port counts and links; `peer` maps each end of a link to the other end.
      Ports outside `peer` lead to hosts. */
  datatype Topology = Topology(ids: seq<nat>, nports: seq<nat>, peer: map<End, End>)

  datatype Packet = Packet(dst: End, config: Config)

  datatype Net = Net(sws: seq<Switch>, flying: set<Packet>)

  datatype Event = Hello(sw: nat) | Deliver(packet: Packet)

  ghost predicate WellFormed(topo: Topology) {
    && |topo.ids| == |topo.nports|
    && Distinct(topo.ids)
    && forall e :: e in topo.peer ==>
         && e.sw < |topo.ids| && e.port < topo.nports[e.sw]
         && topo.peer[e] in topo.peer && topo.peer[topo.peer[e]] == e
         && topo.peer[e].sw != e.sw
  }

  ghost predicate Shape(topo: Topology, net: Net) {
    && |net.sws| == |topo.ids| == |topo.nports|
    && forall x: nat :: x < |net.sws| ==> net.sws[x].id == topo.ids[x] && |net.sws[x].ports| == topo.nports[x]
  }

  function Init(topo: Topology): Net
    requires |topo.ids| == |topo.nports|
  {
    Net(seq(|topo.ids|, x requires 0 <= x < |topo.ids| => InitSwitch(topo.ids[x], topo.nports[x])), {})
  }

  /** The frames that `sends` puts on the links of switch `x`. */
  function Wire(topo: Topology, x: nat, sends: seq<Sent>): set<Packet> {
    set k | 0 <= k < |sends| && End(x, sends[k].port) in topo.peer ::
      Packet(topo.peer[End(x, sends[k].port)], sends[k].config)
  }

  predicate HasEnd(net: Net, e: End) {
    e.sw < |net.sws| && e.port < |net.sws[e.sw].ports|
  }

  function At(net: Net, e: End): Config
    requires HasEnd(net, e)
  {
    net.sws[e.sw].ports[e.port]
  }

  predicate DesignatedAt(net: Net, e: End)
    requires HasEnd(net, e)
  {
    net.sws[e.sw].Designated(e.port)
  }

  predicate Enabled(net: Net, ev: Event) {
    match ev
    case Hello(x) => x < |net.sws| && net.sws[x].helloActive
    case Deliver(p) => p in net.flying && HasEnd(net, p.dst)
  }

  /** The delivery is accepted: it replaces the configuration stored at the port. */
  predicate Accepts(net: Net, ev: Event)
    requires Enabled(net, ev)
  {
    ev.Deliver? && Better(ev.packet.config, At(net, ev.packet.dst))
  }

  function Next(topo: Topology, net: Net, ev: Event): Net
    requires Enabled(net, ev)
  {
    match ev
    case Hello(x) =>
      Net(net.sws, net.flying + Wire(topo, x, net.sws[x].SendAll(|net.sws[x].ports|)))
    case Deliver(Packet(End(x, i), c)) =>
      Net(net.sws[x := net.sws[x].Handle(i, c)],
          net.flying + Wire(topo, x, net.sws[x].HandleSends(i, c)))
  }

  /** The state after the events `evs`, if each is enabled when it happens. */
  function Exec(topo: Topology, evs: seq<Event>): Option<Net>
    requires |topo.ids| == |topo.nports|
  {
    if evs == [] then Some(Init(topo))
    else
      match Exec(topo, evs[..|evs| - 1])
      case None => None
      case Some(net) =>
        if Enabled(net, evs[|evs| - 1]) then Some(Next(topo, net, evs[|evs| - 1])) else None
  }

  ghost predicate Reachable(topo: Topology, net: Net)
    requires |topo.ids| == |topo.nports|
  {
    exists evs :: Exec(topo, evs) == Some(net)
  }

  // ---------------------------------------------------------------- the inductive invariant

  ghost predicate AllLocal(net: Net) {
    forall x: nat :: x < |net.sws| ==> LocalInv(net.sws[x])
  }

  /** `c` was announced by `src` and is no better than what `src` offers now. */
  ghost predicate Announced(topo: Topology, net: Net, src: End, c: Config)
    requires Shape(topo, net) && src.sw < |net.sws|
  {
    && c.sw == topo.ids[src.sw] && c.port == PortId(src.port)
    && !LexLess(c.root, c.cost, net.sws[src.sw].root, net.sws[src.sw].cost)
    && (c.cost == 0 ==> c.root == c.sw)
  }

  ghost predicate StoredInv(topo: Topology, net: Net)
    requires WellFormed(topo) && Shape(topo, net)
  {
    forall e :: HasEnd(net, e) && !DesignatedAt(net, e) ==>
      e in topo.peer && Announced(topo, net, topo.peer[e], At(net, e))
  }

  ghost predicate FlyingInv(topo: Topology, net: Net)
    requires WellFormed(topo) && Shape(topo, net)
  {
    forall p :: p in net.flying ==>
      p.dst in topo.peer && Announced(topo, net, topo.peer[p.dst], p.config)
  }

  /** An end that gave up the designated role faces a designated end that will accept nothing from it. */
  ghost predicate LinkInv(topo: Topology, net: Net)
    requires WellFormed(topo) && Shape(topo, net)
  {
    forall e :: e in topo.peer && !DesignatedAt(net, e) ==>
      && DesignatedAt(net, topo.peer[e])
      && forall p :: p in net.flying && p.dst == topo.peer[e] ==> !Better(p.config, At(net, p.dst))
  }

  ghost predicate Inv(topo: Topology, net: Net)
    requires WellFormed(topo)
  {
    Shape(topo, net) && AllLocal(net) && StoredInv(topo, net) && FlyingInv(topo, net) && LinkInv(topo, net)
  }

  lemma InitInv(topo: Topology)
    requires WellFormed(topo)
    ensures Inv(topo, Init(topo))
  {
    var net := Init(topo);
    forall x: nat | x < |net.sws| ensures LocalInv(net.sws[x]) {
      InitLocalInv(topo.ids[x], topo.nports[x]);
    }
    assert forall e :: HasEnd(net, e) ==> DesignatedAt(net, e);
  }

  // ---------------------------------------------------------------- what a switch sends

  lemma {:induction false} SendAllContents(s: Switch, n: nat, m: Sent)
    requires n <= |s.ports| && m in s.SendAll(n)
    ensures m.port < n && s.Designated(m.port) && m.config == s.Offer(m.port)
  {
    if m in s.SendAll(n - 1) {
      SendAllContents(s, n - 1, m);
    }
  }

  lemma WireOne(topo: Topology, x: nat, m: Sent)
    requires End(x, m.port) in topo.peer
    ensures Wire(topo, x, [m]) == {Packet(topo.peer[End(x, m.port)], m.config)}
  {
    assert [m][0] == m;
  }

  /** A frame on the wire of `x` carries x's current offer; if the port it leaves is not
      designated it is the root port. */
  ghost predicate SentNow(topo: Topology, net: Net, x: nat, p: Packet)
    requires WellFormed(topo) && Shape(topo, net) && x < |net.sws|
  {
    && p.dst in topo.peer
    && topo.peer[p.dst].sw == x
    && p.config == net.sws[x].Offer(topo.peer[p.dst].port)
    && (DesignatedAt(net, topo.peer[p.dst]) || net.sws[x].rootPort == Some(topo.peer[p.dst].port))
  }

  lemma WireSendAll(topo: Topology, net: Net, x: nat)
    requires WellFormed(topo) && Shape(topo, net) && x < |net.sws|
    ensures forall p :: p in Wire(topo, x, net.sws[x].SendAll(|net.sws[x].ports|)) ==> SentNow(topo, net, x, p)
  {
    var sends := net.sws[x].SendAll(|net.sws[x].ports|);
    forall k | 0 <= k < |sends|
      ensures sends[k].port < |net.sws[x].ports| && net.sws[x].Designated(sends[k].port)
      ensures sends[k].config == net.sws[x].Offer(sends[k].port)
    {
      SendAllContents(net.sws[x], |net.sws[x].ports|, sends[k]);
    }
  }

  lemma WireSendOn(topo: Topology, net: Net, x: nat, i: nat)
    requires WellFormed(topo) && Shape(topo, net) && x < |net.sws| && i < |net.sws[x].ports|
    ensures forall p :: p in Wire(topo, x, net.sws[x].SendOn(i)) ==> SentNow(topo, net, x, p)
  {
  }

  /** An answer sent through a root port does not beat the designated end it is sent to. */
  lemma AnswerLoses(topo: Topology, net: Net, x: nat, p: Packet)
    requires WellFormed(topo) && Shape(topo, net) && StoredInv(topo, net)
    requires x < |net.sws| && LocalInv(net.sws[x]) && SentNow(topo, net, x, p)
    requires LocalInv(net.sws[p.dst.sw]) && DesignatedAt(net, p.dst)
    requires !DesignatedAt(net, topo.peer[p.dst])
    ensures !Better(p.config, At(net, p.dst))
  {
    var e := topo.peer[p.dst];
    assert HasEnd(net, e) && Announced(topo, net, p.dst, At(net, e));
    assert At(net, p.dst) == net.sws[p.dst.sw].Offer(p.dst.port);
  }

  lemma SendKeepsFlying(topo: Topology, net: Net, x: nat, ps: set<Packet>)
    requires WellFormed(topo) && Shape(topo, net) && FlyingInv(topo, net)
    requires x < |net.sws| && LocalInv(net.sws[x])
    requires forall p :: p in ps ==> SentNow(topo, net, x, p)
    ensures FlyingInv(topo, Net(net.sws, net.flying + ps))
  {
  }

  lemma SendKeepsLinks(topo: Topology, net: Net, x: nat, ps: set<Packet>)
    requires WellFormed(topo) && Inv(topo, net) && x < |net.sws|
    requires forall p :: p in ps ==> SentNow(topo, net, x, p)
    ensures LinkInv(topo, Net(net.sws, net.flying + ps))
  {
    var net' := Net(net.sws, net.flying + ps);
    forall e, p | e in topo.peer && !DesignatedAt(net', e) && p in ps && p.dst == topo.peer[e]
      ensures !Better(p.config, At(net', p.dst))
    {
      assert LocalInv(net.sws[p.dst.sw]);
      AnswerLoses(topo, net, x, p);
    }
  }

  /** Sending changes no switch and keeps the invariant. */
  lemma SendKeepsInv(topo: Topology, net: Net, x: nat, ps: set<Packet>)
    requires WellFormed(topo) && Inv(topo, net) && x < |net.sws|
    requires forall p :: p in ps ==> SentNow(topo, net, x, p)
    ensures Inv(topo, Net(net.sws, net.flying + ps))
  {
    var net' := Net(net.sws, net.flying + ps);
    SendKeepsFlying(topo, net, x, ps);
    SendKeepsLinks(topo, net, x, ps);
    assert StoredInv(topo, net') by {
      assert forall e :: HasEnd(net', e) ==> HasEnd(net, e);
    }
  }

  /** No switch's own values got worse. */
  ghost predicate NoneWorse(net: Net, net': Net) {
    && |net.sws| == |net'.sws|
    && forall x: nat :: x < |net.sws| ==>
         !LexLess(net.sws[x].root, net.sws[x].cost, net'.sws[x].root, net'.sws[x].cost)
  }

  lemma AnnouncedKept(topo: Topology, net: Net, net': Net, src: End, c: Config)
    requires Shape(topo, net) && Shape(topo, net') && NoneWorse(net, net')
    requires src.sw < |net.sws| && Announced(topo, net, src, c)
    ensures Announced(topo, net', src, c)
  {
  }

  // ---------------------------------------------------------------- acceptance

  /** The network right after switch `dst.sw` accepted `c`, before it sends anything. */
  function Accepted(net: Net, dst: End, c: Config): Net
    requires HasEnd(net, dst)
  {
    Net(net.sws[dst.sw := net.sws[dst.sw].Accept(dst.port, c)], net.flying)
  }

  ghost predicate Accepting(topo: Topology, net: Net, p: Packet)
    requires WellFormed(topo)
  {
    Inv(topo, net) && p in net.flying && HasEnd(net, p.dst) && Better(p.config, At(net, p.dst))
  }

  lemma AnnouncerIsDesignated(topo: Topology, net: Net, p: Packet)
    requires WellFormed(topo) && Accepting(topo, net, p)
    ensures p.dst in topo.peer && Announced(topo, net, topo.peer[p.dst], p.config)
    ensures DesignatedAt(net, topo.peer[p.dst])
  {
    assert topo.peer[topo.peer[p.dst]] == p.dst;
  }

  lemma DeliveredIsAcceptable(topo: Topology, net: Net, p: Packet)
    requires WellFormed(topo) && Accepting(topo, net, p)
    ensures Acceptable(net.sws[p.dst.sw], p.dst.port, p.config)
  {
    var e, src, c := p.dst, topo.peer[p.dst], p.config;
    var s := net.sws[e.sw];
    forall j: nat | j < |s.ports| && j != e.port && !s.Designated(j) ensures s.ports[j] != c {
      var f := End(e.sw, j);
      assert HasEnd(net, f) && !DesignatedAt(net, f);
      assert Announced(topo, net, topo.peer[f], At(net, f));
      assert topo.peer[f] != src;
    }
  }

  /** Acceptance in terms of the network: one port takes the message, that switch improves, nothing else moves. */
  ghost predicate AcceptStep(net: Net, dst: End, c: Config, net': Net)
    requires HasEnd(net, dst)
  {
    && net'.flying == net.flying && |net'.sws| == |net.sws|
    && (forall x: nat :: x < |net.sws| && x != dst.sw ==> net'.sws[x] == net.sws[x])
    && (forall e :: HasEnd(net, e) <==> HasEnd(net', e))
    && (forall e :: HasEnd(net, e) ==>
          && DesignatedAt(net', e) == (e != dst && DesignatedAt(net, e))
          && !Better(At(net, e), At(net', e))
          && (e != dst && !DesignatedAt(net, e) ==> At(net', e) == At(net, e)))
    && At(net', dst) == c
  }

  lemma AcceptedStep(topo: Topology, net: Net, dst: End, c: Config)
    requires Shape(topo, net) && HasEnd(net, dst) && LocalInv(net.sws[dst.sw])
    requires Acceptable(net.sws[dst.sw], dst.port, c)
    ensures var net' := Accepted(net, dst, c);
            && Shape(topo, net') && NoneWorse(net, net')
            && LocalInv(net'.sws[dst.sw]) && net'.sws[dst.sw].rootPort.Some?
            && AcceptStep(net, dst, c, net')
  {
    var s := net.sws[dst.sw];
    var t := s.Accept(dst.port, c);
    AcceptKeeps(s, dst.port, c);
    var net' := Accepted(net, dst, c);
    forall e | HasEnd(net, e)
      ensures && DesignatedAt(net', e) == (e != dst && DesignatedAt(net, e))
              && !Better(At(net, e), At(net', e))
              && (e != dst && !DesignatedAt(net, e) ==> At(net', e) == At(net, e))
    {
      assert e.sw == dst.sw ==> net'.sws[e.sw] == t;
    }
  }

  lemma AcceptedStored(topo: Topology, net: Net, p: Packet, net': Net)
    requires WellFormed(topo) && Accepting(topo, net, p)
    requires Shape(topo, net') && NoneWorse(net, net') && AcceptStep(net, p.dst, p.config, net')
    ensures StoredInv(topo, net') && FlyingInv(topo, net')
  {
    forall e | HasEnd(net', e) && !DesignatedAt(net', e)
      ensures e in topo.peer && Announced(topo, net', topo.peer[e], At(net', e))
    {
      assert HasEnd(net, e);
      if e != p.dst {
        assert !DesignatedAt(net, e) && At(net', e) == At(net, e);
      }
      AnnouncedKept(topo, net, net', topo.peer[e], At(net', e));
    }
    forall q | q in net'.flying
      ensures q.dst in topo.peer && Announced(topo, net', topo.peer[q.dst], q.config)
    {
      AnnouncedKept(topo, net, net', topo.peer[q.dst], q.config);
    }
  }

  lemma AcceptedLink(topo: Topology, net: Net, p: Packet, e: End)
    requires WellFormed(topo) && Accepting(topo, net, p)
    requires e in topo.peer && (e == p.dst || !DesignatedAt(net, e))
    ensures DesignatedAt(net, topo.peer[e]) && topo.peer[e] != p.dst
    ensures forall q :: q in net.flying && q.dst == topo.peer[e] ==> !Better(q.config, At(net, q.dst))
  {
    AnnouncerIsDesignated(topo, net, p);
    assert topo.peer[topo.peer[e]] == e;
    if e == p.dst {
      forall q | q in net.flying && q.dst == topo.peer[e] ensures !Better(q.config, At(net, q.dst)) {
        OldAnswersLose(topo, net, p, q);
      }
    }
  }

  lemma AcceptedLinks(topo: Topology, net: Net, p: Packet, net': Net)
    requires WellFormed(topo) && Accepting(topo, net, p) && Shape(topo, net')
    requires AcceptStep(net, p.dst, p.config, net')
    ensures LinkInv(topo, net')
  {
    forall e | e in topo.peer && !DesignatedAt(net', e)
      ensures DesignatedAt(net', topo.peer[e])
      ensures forall q :: q in net.flying && q.dst == topo.peer[e] ==> !Better(q.config, At(net', q.dst))
    {
      AcceptedLink(topo, net, p, e);
      forall q | q in net.flying && q.dst == topo.peer[e] ensures !Better(q.config, At(net', q.dst)) {
        NotBetterTransitive(q.config, At(net, q.dst), At(net', q.dst));
      }
    }
  }

  lemma AcceptedLocal(net: Net, p: Packet, net': Net)
    requires AllLocal(net) && HasEnd(net, p.dst) && AcceptStep(net, p.dst, p.config, net')
    requires LocalInv(net'.sws[p.dst.sw])
    ensures AllLocal(net')
  {
    forall x: nat | x < |net'.sws| ensures LocalInv(net'.sws[x]) {
      assert x != p.dst.sw ==> net'.sws[x] == net.sws[x];
    }
  }

  /** When an end accepts `p`, nothing it ever sent can beat what the announcer holds. */
  lemma OldAnswersLose(topo: Topology, net: Net, p: Packet, q: Packet)
    requires WellFormed(topo) && Accepting(topo, net, p)
    requires q in net.flying && p.dst in topo.peer && q.dst == topo.peer[p.dst]
    ensures !Better(q.config, At(net, q.dst))
  {
    AnnouncerIsDesignated(topo, net, p);
    var e, f := p.dst, q.dst;
    if DesignatedAt(net, e) {
      assert topo.peer[f] == e;
      assert Announced(topo, net, e, q.config) && Announced(topo, net, f, p.config);
      assert LocalInv(net.sws[e.sw]) && LocalInv(net.sws[f.sw]);
      assert At(net, e) == net.sws[e.sw].Offer(e.port);
      assert At(net, f) == net.sws[f.sw].Offer(f.port);
      assert !Better(q.config, At(net, e)) && !Better(p.config, At(net, f));
    }
  }

  // ---------------------------------------------------------------- every step, every run

  lemma AcceptedInv(topo: Topology, net: Net, p: Packet)
    requires WellFormed(topo) && Accepting(topo, net, p)
    ensures Inv(topo, Accepted(net, p.dst, p.config))
    ensures NoneWorse(net, Accepted(net, p.dst, p.config))
    ensures AcceptStep(net, p.dst, p.config, Accepted(net, p.dst, p.config))
    ensures Accepted(net, p.dst, p.config).sws[p.dst.sw].rootPort.Some?
  {
    var net' := Accepted(net, p.dst, p.config);
    DeliveredIsAcceptable(topo, net, p);
    AcceptedStep(topo, net, p.dst, p.config);
    AcceptedStored(topo, net, p, net');
    AcceptedLinks(topo, net, p, net');
    AcceptedLocal(net, p, net');
  }

  /** The network after the switch has updated itself but before it sends. */
  function Updated(net: Net, ev: Event): Net
    requires Enabled(net, ev)
  {
    if Accepts(net, ev) then Accepted(net, ev.packet.dst, ev.packet.config) else net
  }

  function Frames(topo: Topology, net: Net, ev: Event): set<Packet>
    requires Enabled(net, ev)
  {
    match ev
    case Hello(x) => Wire(topo, x, net.sws[x].SendAll(|net.sws[x].ports|))
    case Deliver(Packet(End(x, i), c)) => Wire(topo, x, net.sws[x].HandleSends(i, c))
  }

  function Actor(ev: Event): nat {
    match ev
    case Hello(x) => x
    case Deliver(p) => p.dst.sw
  }

  /** Every event first updates one switch and then only adds frames that carry that switch's offer. */
  lemma NextDecomposed(topo: Topology, net: Net, ev: Event)
    requires WellFormed(topo) && Inv(topo, net) && Enabled(net, ev)
    ensures var mid := Updated(net, ev);
            && Inv(topo, mid) && NoneWorse(net, mid)
            && (forall p :: p in Frames(topo, net, ev) ==> SentNow(topo, mid, Actor(ev), p))
            && Next(topo, net, ev) == Net(mid.sws, mid.flying + Frames(topo, net, ev))
            && Actor(ev) < |mid.sws|
  {
    match ev
    case Hello(x) => WireSendAll(topo, net, x);
    case Deliver(p) =>
      if Accepts(net, ev) {
        AcceptedInv(topo, net, p);
        WireSendAll(topo, Updated(net, ev), p.dst.sw);
      } else {
        assert net.sws[p.dst.sw := net.sws[p.dst.sw].Handle(p.dst.port, p.config)] == net.sws;
        WireSendOn(topo, net, p.dst.sw, p.dst.port);
      }
  }

  lemma NextInv(topo: Topology, net: Net, ev: Event)
    requires WellFormed(topo) && Inv(topo, net) && Enabled(net, ev)
    ensures Inv(topo, Next(topo, net, ev))
  {
    NextDecomposed(topo, net, ev);
    SendKeepsInv(topo, Updated(net, ev), Actor(ev), Frames(topo, net, ev));
  }

  lemma {:induction false} ExecInv(topo: Topology, evs: seq<Event>)
    requires WellFormed(topo) && Exec(topo, evs).Some?
    ensures Inv(topo, Exec(topo, evs).value)
  {
    if evs == [] {
      InitInv(topo);
    } else {
      ExecInv(topo, evs[..|evs| - 1]);
      NextInv(topo, Exec(topo, evs[..|evs| - 1]).value, evs[|evs| - 1]);
    }
  }

  lemma ReachableInv(topo: Topology, net: Net)
    requires WellFormed(topo) && Reachable(topo, net)
    ensures Inv(topo, net)
  {
    var evs :| Exec(topo, evs) == Some(net);
    ExecInv(topo, evs);
  }
}
