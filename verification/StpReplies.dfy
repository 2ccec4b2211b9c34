/**
 Exactly which frames each event puts on the links, and what the answer to a worse configuration is
 for: it teaches a switch that announces itself but has missed everything sent before.
 */
module StpReplies {
  import opened Common
  import opened StpSwitch
  import opened StpNetwork

  /** What switch `e.sw` announces at its linked end `e`. */
  function Announcement(topo: Topology, net: Net, e: End): Packet
    requires HasEnd(net, e) && e in topo.peer
  {
    var s := net.sws[e.sw];
    Packet(topo.peer[e], Config(s.root, s.cost, s.id, 0x8001 + e.port))
  }

  /** The frames are the announcements at all linked designated ends of switch `x`. */
  ghost predicate AnnouncesAll(topo: Topology, net: Net, x: nat, frames: set<Packet>)
    requires WellFormed(topo) && Shape(topo, net)
  {
    && (forall e :: e in topo.peer && e.sw == x && DesignatedAt(net, e) ==> Announcement(topo, net, e) in frames)
    && forall p :: p in frames ==>
         exists e :: e in topo.peer && e.sw == x && DesignatedAt(net, e) && p == Announcement(topo, net, e)
  }

  lemma {:induction false} SendsAtDesignated(s: Switch, n: nat, i: nat)
    requires LocalInv(s) && i < n <= |s.ports| && s.Designated(i)
    ensures Sent(i, s.Offer(i)) in s.SendAll(n)
  {
    if i < n - 1 {
      SendsAtDesignated(s, n - 1, i);
    }
  }

  lemma WireAnnouncesAll(topo: Topology, net: Net, x: nat)
    requires WellFormed(topo) && Shape(topo, net) && x < |net.sws| && LocalInv(net.sws[x])
    ensures AnnouncesAll(topo, net, x, Wire(topo, x, net.sws[x].SendAll(|net.sws[x].ports|)))
  {
    var s := net.sws[x];
    var sends := s.SendAll(|s.ports|);
    var frames := Wire(topo, x, sends);
    forall e | e in topo.peer && e.sw == x && DesignatedAt(net, e) ensures Announcement(topo, net, e) in frames {
      SendsAtDesignated(s, |s.ports|, e.port);
      var k :| 0 <= k < |sends| && sends[k] == Sent(e.port, s.Offer(e.port));
      assert End(x, sends[k].port) == e;
    }
    forall p | p in frames
      ensures exists e :: e in topo.peer && e.sw == x && DesignatedAt(net, e) && p == Announcement(topo, net, e)
    {
      var k :| 0 <= k < |sends| && End(x, sends[k].port) in topo.peer
        && p == Packet(topo.peer[End(x, sends[k].port)], sends[k].config);
      SendAllContents(s, |s.ports|, sends[k]);
      assert p == Announcement(topo, net, End(x, sends[k].port));
    }
  }

  /** A hello, and an accepted configuration after it has had its effect, are announced at exactly the
      linked designated ends. */
  lemma AnnouncesExactly(topo: Topology, net: Net, ev: Event)
    requires WellFormed(topo) && Inv(topo, net) && Enabled(net, ev) && (ev.Hello? || Accepts(net, ev))
    ensures Shape(topo, Next(topo, net, ev))
    ensures AnnouncesAll(topo, Next(topo, net, ev), Actor(ev), Frames(topo, net, ev))
  {
    NextDecomposed(topo, net, ev);
    NextInv(topo, net, ev);
    WireAnnouncesAll(topo, Next(topo, net, ev), Actor(ev));
  }

  /** A configuration that is not better is answered, at a designated or root port and there only, by
      what the switch holds itself. */
  lemma RefusalIsAnswered(topo: Topology, net: Net, p: Packet)
    requires WellFormed(topo) && Inv(topo, net) && Enabled(net, Deliver(p)) && !Accepts(net, Deliver(p))
    ensures p.dst in topo.peer
    ensures Frames(topo, net, Deliver(p)) ==
            if DesignatedAt(net, p.dst) || net.sws[p.dst.sw].rootPort == Some(p.dst.port)
            then {Announcement(topo, net, p.dst)} else {}
  {
    ReceiverIsSound(topo, net, p);
    AnswerAt(topo, net, p);
  }

  lemma ReceiverIsSound(topo: Topology, net: Net, p: Packet)
    requires WellFormed(topo) && Inv(topo, net) && Enabled(net, Deliver(p))
    ensures p.dst in topo.peer && LocalInv(net.sws[p.dst.sw])
  {
  }

  lemma AnswerAt(topo: Topology, net: Net, p: Packet)
    requires Enabled(net, Deliver(p)) && !Accepts(net, Deliver(p))
    requires p.dst in topo.peer && LocalInv(net.sws[p.dst.sw])
    ensures Frames(topo, net, Deliver(p)) ==
            if DesignatedAt(net, p.dst) || net.sws[p.dst.sw].rootPort == Some(p.dst.port)
            then {Announcement(topo, net, p.dst)} else {}
  {
    var s := net.sws[p.dst.sw];
    AnswerOf(s, p.dst.port, p.config);
    FramesOf(topo, net, p);
    if DesignatedAt(net, p.dst) || s.rootPort == Some(p.dst.port) {
      WireOne(topo, p.dst.sw, Sent(p.dst.port, Config(s.root, s.cost, s.id, 0x8001 + p.dst.port)));
    } else {
      assert Wire(topo, p.dst.sw, []) == {};
    }
  }

  lemma FramesOf(topo: Topology, net: Net, p: Packet)
    requires Enabled(net, Deliver(p))
    ensures Frames(topo, net, Deliver(p)) ==
            Wire(topo, p.dst.sw, net.sws[p.dst.sw].HandleSends(p.dst.port, p.config))
  {
  }

  /** What a switch answers to a configuration that is not better. */
  lemma AnswerOf(s: Switch, i: nat, c: Config)
    requires LocalInv(s) && i < |s.ports| && !Better(c, s.ports[i])
    ensures s.HandleSends(i, c) ==
            if s.Designated(i) || s.rootPort == Some(i) then [Sent(i, Config(s.root, s.cost, s.id, 0x8001 + i))] else []
  {
  }

  /** The switches as they are, with nothing in flight. */
  function Quiet(net: Net): Net {
    Net(net.sws, {})
  }

  lemma QuietInv(topo: Topology, net: Net)
    requires WellFormed(topo) && Inv(topo, net)
    ensures Inv(topo, Quiet(net))
  {
    assert forall e :: HasEnd(Quiet(net), e) ==> HasEnd(net, e);
    forall e | HasEnd(Quiet(net), e) && !DesignatedAt(Quiet(net), e)
      ensures e in topo.peer && Announced(topo, Quiet(net), topo.peer[e], At(Quiet(net), e))
    {
      assert Announced(topo, net, topo.peer[e], At(net, e));
    }
  }

  /** Both ends of a link think they announce, `e` has the better offer, and the other says hello. */
  ghost predicate Unheard(topo: Topology, net: Net, e: End)
    requires WellFormed(topo) && Shape(topo, net)
  {
    && e in topo.peer && DesignatedAt(net, e) && DesignatedAt(net, topo.peer[e])
    && Better(net.sws[e.sw].Offer(e.port), At(net, topo.peer[e]))
    && net.sws[topo.peer[e].sw].helloActive
  }

  lemma HelloIsRefused(topo: Topology, net: Net, e: End)
    requires WellFormed(topo) && Inv(topo, net) && Unheard(topo, net, e)
    ensures var f := topo.peer[e];
            && Enabled(net, Hello(f.sw)) && Next(topo, net, Hello(f.sw)).sws == net.sws
            && Announcement(topo, net, f).dst == e
            && Enabled(Next(topo, net, Hello(f.sw)), Deliver(Announcement(topo, net, f)))
            && !Accepts(Next(topo, net, Hello(f.sw)), Deliver(Announcement(topo, net, f)))
  {
    var f := topo.peer[e];
    assert topo.peer[f] == e;
    AnnouncesExactly(topo, net, Hello(f.sw));
    assert LocalInv(net.sws[e.sw]) && LocalInv(net.sws[f.sw]);
    assert At(net, e) == net.sws[e.sw].Offer(e.port) && At(net, f) == net.sws[f.sw].Offer(f.port);
  }

  lemma AnswerIsSent(topo: Topology, net: Net, q: Packet, e: End)
    requires WellFormed(topo) && Inv(topo, net) && Unheard(topo, net, e) && q.dst == e
    requires Enabled(net, Deliver(q)) && !Accepts(net, Deliver(q))
    ensures var mid := Next(topo, net, Deliver(q));
            mid.sws == net.sws && Announcement(topo, net, e) in mid.flying
  {
    RefusalIsAnswered(topo, net, q);
    var mid := Next(topo, net, Deliver(q));
    assert net.sws[e.sw := net.sws[e.sw].Handle(e.port, q.config)] == net.sws;
    assert Announcement(topo, net, e) in Frames(topo, net, Deliver(q));
  }

  lemma AnswerIsStored(topo: Topology, net: Net, e: End)
    requires WellFormed(topo) && Inv(topo, net) && Unheard(topo, net, e) && Announcement(topo, net, e) in net.flying
    ensures var ev := Deliver(Announcement(topo, net, e));
            && Enabled(net, ev) && HasEnd(Next(topo, net, ev), topo.peer[e])
            && At(Next(topo, net, ev), topo.peer[e]) == Announcement(topo, net, e).config
  {
    var r := Announcement(topo, net, e);
    AcceptedInv(topo, net, r);
    NextDecomposed(topo, net, Deliver(r));
  }

  /** Even with nothing left in flight, a better offer reaches the other end of its link as soon as
      that end says hello: the hello is refused, the refusal answered, and the answer stored. */
  lemma AnswerTeaches(topo: Topology, net: Net, e: End) returns (hello: Event, refused: Event, answer: Event)
    requires WellFormed(topo) && Reachable(topo, net) && Shape(topo, net) && Unheard(topo, net, e)
    ensures Enabled(Quiet(net), hello)
    ensures Enabled(Next(topo, Quiet(net), hello), refused)
    ensures Enabled(Next(topo, Next(topo, Quiet(net), hello), refused), answer)
    ensures hello == Hello(topo.peer[e].sw) && refused.Deliver? && refused.packet.dst == e && answer.Deliver?
    ensures var taught := Next(topo, Next(topo, Next(topo, Quiet(net), hello), refused), answer);
            && HasEnd(taught, topo.peer[e])
            && At(taught, topo.peer[e]) == Announcement(topo, net, e).config
  {
    var f := topo.peer[e];
    var n0 := Quiet(net);
    ReachableInv(topo, net);
    QuietInv(topo, net);
    HelloIsRefused(topo, n0, e);
    var n1, q := Next(topo, n0, Hello(f.sw)), Announcement(topo, n0, f);
    NextInv(topo, n0, Hello(f.sw));
    assert Unheard(topo, n1, e);
    AnswerIsSent(topo, n1, q, e);
    var n2 := Next(topo, n1, Deliver(q));
    NextInv(topo, n1, Deliver(q));
    assert Unheard(topo, n2, e) && Announcement(topo, n2, e) == Announcement(topo, n1, e);
    AnswerIsStored(topo, n2, e);
    hello, refused, answer := Hello(f.sw), Deliver(q), Deliver(Announcement(topo, n2, e));
  }
}
