/**
 The life of a flow: its mapping stays through packets and sweeps until a sweep finds it old or
 finished, replies find their way back until then and no longer.
 */
module NatFlows {
  import opened Common
  import opened Nat
  import opened NatTheorems

  /** The mapping that an outgoing packet like `pkt` uses. */
  function MappingOf(c: Config, t: Table, pkt: Packet): Option<Mapping>
    requires t.Valid()
  {
    var b := t.buckets[c.Index(pkt.daddr, pkt.dport)];
    var j := FindInternal(b, pkt.saddr, pkt.sport, 0);
    if j < |b| then Some(b[j]) else None
  }

  predicate SameEnds(m: Mapping, n: Mapping) {
    m == n.(flow := m.flow)
  }

  /** After `start`, every sweep in `more` comes within 60 seconds and finds the flow unfinished. */
  ghost predicate Undisturbed(c: Config, sent: seq<Event>, pkt: Packet, start: int, more: seq<Event>) {
    forall k :: 0 <= k < |more| && more[k].Tick? ==>
      && more[k].now - start <= ESTABLISHED_TIMEOUT
      && var m := MappingOf(c, Run(c, sent + more[..k]), pkt);
         m.Some? ==> !Finished(m.value.flow)
  }

  // ---------------------------------------------------------------- one event

  /** A sweep that does not remove the first mapping of an internal endpoint leaves it the first. */
  lemma {:induction false} KeptFirst(b: seq<Mapping>, ip: nat, port: nat, now: int)
    requires FindInternal(b, ip, port, 0) < |b| && !Expired(b[FindInternal(b, ip, port, 0)], now)
    ensures var kept := Kept(b, now);
            var k := FindInternal(kept, ip, port, 0);
            k < |kept| && kept[k] == b[FindInternal(b, ip, port, 0)]
  {
    var front, j := b[..|b| - 1], FindInternal(b, ip, port, 0);
    if j < |front| {
      assert FindInternal(front, ip, port, 0) == j;
      KeptFirst(front, ip, port, now);
      var k := FindInternal(Kept(front, now), ip, port, 0);
      assert forall l :: 0 <= l <= k ==> Kept(b, now)[l] == Kept(front, now)[l];
    } else {
      var kept := Kept(front, now);
      forall k | 0 <= k < |kept| ensures !FromInside(kept[k], ip, port) {
        assert kept[k] in kept;
        KeptIsYoung(front, now, kept[k]);
        var l :| 0 <= l < |front| && front[l] == kept[k];
        assert b[l] == front[l];
      }
      var all := kept + [b[j]];
      assert Kept(b, now) == all && all[|kept|] == b[j];
      assert forall k :: 0 <= k < |kept| ==> all[k] == kept[k];
    }
  }

  /** No event but a sweep that finds it expired takes a flow's mapping, or changes more than its flow. */
  lemma MappingStays(c: Config, t: Table, ev: Event, pkt: Packet)
    requires t.Valid() && MappingOf(c, t, pkt).Some?
    requires ev.Tick? ==> !Expired(MappingOf(c, t, pkt).value, ev.now)
    ensures var after := MappingOf(c, Step(c, t, ev), pkt);
            after.Some? && SameEnds(after.value, MappingOf(c, t, pkt).value)
  {
    if ev.Tick? {
      KeptFirst(t.buckets[c.Index(pkt.daddr, pkt.dport)], pkt.saddr, pkt.sport, ev.now);
    } else {
      var i := c.Index(pkt.daddr, pkt.dport);
      PacketStays(c, t, ev, i, FindInternal(t.buckets[i], pkt.saddr, pkt.sport, 0), pkt.saddr, pkt.sport);
    }
  }

  /** A packet moves no mapping and changes only its flow. */
  lemma PacketStays(c: Config, t: Table, ev: Event, i: nat, j: nat, ip: nat, port: nat)
    requires t.Valid() && !ev.Tick? && i < BUCKETS && j < |t.buckets[i]|
    requires j == FindInternal(t.buckets[i], ip, port, 0)
    ensures var after := Step(c, t, ev).buckets[i];
            && j < |after| && SameEnds(after[j], t.buckets[i][j])
            && FindInternal(after, ip, port, 0) == j
  {
    var before, after := t.buckets[i], Step(c, t, ev).buckets[i];
    assert |before| <= |after| && forall k :: 0 <= k < |before| ==> SameEnds(after[k], before[k]);
  }

  // ---------------------------------------------------------------- a flow through a run

  /** The flow of the run `es` that begins with `pkt` at time `start`, `more` later. */
  function Later(es: seq<Event>, pkt: Packet, start: int, more: seq<Event>): seq<Event> {
    es + [Out(pkt, start)] + more
  }

  /** The mapping the flow of `pkt` has after the run `es`, made at `start` for external endpoint `out`. */
  ghost predicate FlowHas(c: Config, es: seq<Event>, pkt: Packet, start: int, out: Packet) {
    var m := MappingOf(c, Run(c, es), pkt);
    m.Some? && m.value.time == start && ToOutside(m.value, out.saddr, out.sport)
  }

  lemma FlowStart(c: Config, es: seq<Event>, pkt: Packet, start: int)
    requires StartsFlow(c, Run(c, es), pkt)
    ensures FlowHas(c, es + [Out(pkt, start)], pkt, start, TranslateOut(c, Run(c, es), pkt, start).1)
  {
    OutLeaves(c, Run(c, es), pkt, start);
    RunOneMore(c, es, Out(pkt, start));
  }

  lemma FlowStep(c: Config, es: seq<Event>, ev: Event, pkt: Packet, start: int, out: Packet)
    requires FlowHas(c, es, pkt, start, out)
    requires ev.Tick? ==> ev.now - start <= 60 && !Finished(MappingOf(c, Run(c, es), pkt).value.flow)
    ensures FlowHas(c, es + [ev], pkt, start, out)
  {
    RunOneMore(c, es, ev);
    MappingStays(c, Run(c, es), ev, pkt);
  }

  lemma UndisturbedBefore(c: Config, sent: seq<Event>, pkt: Packet, start: int, more: seq<Event>)
    requires more != [] && Undisturbed(c, sent, pkt, start, more)
    ensures var k := |more| - 1;
            && Undisturbed(c, sent, pkt, start, more[..k])
            && (more[k].Tick? ==>
                  && more[k].now - start <= 60
                  && var m := MappingOf(c, Run(c, sent + more[..k]), pkt);
                     m.Some? ==> !Finished(m.value.flow))
  {
    var front := more[..|more| - 1];
    forall l | 0 <= l < |front| ensures front[..l] == more[..l] && front[l] == more[l] {
    }
  }

  lemma LastApart(sent: seq<Event>, more: seq<Event>)
    requires more != []
    ensures sent + more == (sent + more[..|more| - 1]) + [more[|more| - 1]]
  {
  }

  lemma {:induction false} FlowGoesOn(c: Config, sent: seq<Event>, pkt: Packet, start: int, more: seq<Event>,
                                      out: Packet)
    requires FlowHas(c, sent, pkt, start, out) && Undisturbed(c, sent, pkt, start, more)
    ensures FlowHas(c, sent + more, pkt, start, out)
  {
    if more == [] {
      assert sent + more == sent;
    } else {
      var k := |more| - 1;
      UndisturbedBefore(c, sent, pkt, start, more);
      FlowGoesOn(c, sent, pkt, start, more[..k], out);
      FlowStep(c, sent + more[..k], more[k], pkt, start, out);
      LastApart(sent, more);
    }
  }

  /** Through packets of any flows and sweeps that come in time the mapping keeps its ends and the
      time of the first packet. */
  lemma FlowStays(c: Config, es: seq<Event>, pkt: Packet, start: int, more: seq<Event>)
    requires StartsFlow(c, Run(c, es), pkt) && Undisturbed(c, es + [Out(pkt, start)], pkt, start, more)
    ensures FlowHas(c, Later(es, pkt, start, more), pkt, start, TranslateOut(c, Run(c, es), pkt, start).1)
  {
    FlowStart(c, es, pkt, start);
    FlowGoesOn(c, es + [Out(pkt, start)], pkt, start, more, TranslateOut(c, Run(c, es), pkt, start).1);
  }

  /** However many packets a flow has sent and whatever sweeps there were, the next sweep keeps its
      mapping exactly within 60 seconds of the first packet and while the flow is not finished. */
  lemma FlowSurvivesIff(c: Config, es: seq<Event>, pkt: Packet, start: int, more: seq<Event>, now: int)
    requires StartsFlow(c, Run(c, es), pkt) && Undisturbed(c, es + [Out(pkt, start)], pkt, start, more)
    ensures var m := MappingOf(c, Run(c, Later(es, pkt, start, more)), pkt);
            && m.Some?
            && (MappingOf(c, Run(c, Later(es, pkt, start, more) + [Tick(now)]), pkt) == m <==>
                now - start <= 60 && !Finished(m.value.flow))
  {
    var sent := Later(es, pkt, start, more);
    FlowStays(c, es, pkt, start, more);
    RunOneMore(c, sent, Tick(now));
    var b, m := Run(c, sent).buckets[c.Index(pkt.daddr, pkt.dport)], MappingOf(c, Run(c, sent), pkt).value;
    if Expired(m, now) {
      KeptIsYoung(b, now, m);
    } else {
      KeptFirst(b, pkt.saddr, pkt.sport, now);
    }
  }

  /** Whatever packets and timely sweeps come in between, the reply to a packet that got a port is
      restored. */
  lemma ReplyAnytime(c: Config, es: seq<Event>, pkt: Packet, start: int, more: seq<Event>, reply: Packet, later: int)
    requires PoolIsOwn(c)
    requires StartsFlow(c, Run(c, es), pkt) && Undisturbed(c, es + [Out(pkt, start)], pkt, start, more)
    requires ReplyTo(pkt, TranslateOut(c, Run(c, es), pkt, start).1, reply) && reply.dport != 0
    ensures TranslateIn(c, Run(c, Later(es, pkt, start, more)), reply, later).1 ==
            Some(reply.(daddr := pkt.saddr, dport := pkt.sport))
  {
    var sent, i := Later(es, pkt, start, more), c.Index(pkt.daddr, pkt.dport);
    FlowStays(c, es, pkt, start, more);
    OwnerIsReached(c, sent, FindInternal(Run(c, sent).buckets[i], pkt.saddr, pkt.sport, 0), reply, later);
  }

  /** The next sweep decides: within 60 seconds of the first packet and unfinished, the reply is still
      restored; otherwise it goes nowhere. */
  lemma SweepDecidesReply(c: Config, es: seq<Event>, pkt: Packet, start: int, more: seq<Event>, now: int,
                          reply: Packet, later: int)
    requires PoolIsOwn(c)
    requires StartsFlow(c, Run(c, es), pkt) && Undisturbed(c, es + [Out(pkt, start)], pkt, start, more)
    requires ReplyTo(pkt, TranslateOut(c, Run(c, es), pkt, start).1, reply) && reply.dport != 0
    ensures var m := MappingOf(c, Run(c, Later(es, pkt, start, more)), pkt);
            && m.Some?
            && TranslateIn(c, Run(c, Later(es, pkt, start, more) + [Tick(now)]), reply, later).1 ==
               if now - start <= 60 && !Finished(m.value.flow)
               then Some(reply.(daddr := pkt.saddr, dport := pkt.sport)) else None
  {
    var sent, i := Later(es, pkt, start, more), c.Index(pkt.daddr, pkt.dport);
    FlowStays(c, es, pkt, start, more);
    RunOneMore(c, sent, Tick(now));
    var b := Run(c, sent).buckets[i];
    var j := FindInternal(b, pkt.saddr, pkt.sport, 0);
    if Expired(b[j], now) {
      RunIsOwned(c, sent, i);
      OwnerGoes(b, j, now);
      assert Pool(reply.dport) && !GivenAway(c, reply.dport);
    } else {
      KeptFirst(b, pkt.saddr, pkt.sport, now);
      var kept := Kept(b, now);
      OwnerIsReached(c, sent + [Tick(now)], FindInternal(kept, pkt.saddr, pkt.sport, 0), reply, later);
    }
  }

  /** A sweep that removes a mapping leaves nobody at its external endpoint. */
  lemma OwnerGoes(b: seq<Mapping>, j: nat, now: int)
    requires OwnedIn(b) && j < |b| && b[j].extPort != 0 && Expired(b[j], now)
    ensures forall k :: 0 <= k < |Kept(b, now)| ==> !ToOutside(Kept(b, now)[k], b[j].extIp, b[j].extPort)
  {
    var kept := Kept(b, now);
    forall k | 0 <= k < |kept| ensures !ToOutside(kept[k], b[j].extIp, b[j].extPort) {
      assert kept[k] in kept;
      KeptIsYoung(b, now, kept[k]);
      var l :| 0 <= l < |b| && b[l] == kept[k];
    }
  }

  /** The age of a mapping counts from its first packet: however busy the flow is, the first sweep
      more than 60 seconds later takes its mapping and the replies go nowhere. */
  lemma BusyFlowIsDropped(c: Config, es: seq<Event>, pkt: Packet, start: int, more: seq<Event>, now: int,
                          reply: Packet, later: int)
    requires PoolIsOwn(c)
    requires StartsFlow(c, Run(c, es), pkt) && Undisturbed(c, es + [Out(pkt, start)], pkt, start, more)
    requires ReplyTo(pkt, TranslateOut(c, Run(c, es), pkt, start).1, reply) && reply.dport != 0
    requires now - start > 60
    ensures TranslateIn(c, Run(c, Later(es, pkt, start, more) + [Tick(now)]), reply, later).1 == None
  {
    SweepDecidesReply(c, es, pkt, start, more, now, reply, later);
  }

  // ---------------------------------------------------------------- from outside in and back

  /** The answer to an inbound packet that was sent on to `inside`. */
  predicate AnswerTo(pkt: Packet, inside: Packet, answer: Packet) {
    && answer.saddr == inside.daddr && answer.sport == inside.dport
    && answer.daddr == pkt.saddr && answer.dport == pkt.sport
  }

  /** The first mapping of the packet's bucket that has the internal endpoint, if any, has the
      packet's external one too. */
  predicate AnswersAs(c: Config, t: Table, pkt: Packet, ip: nat, port: nat)
    requires t.Valid()
  {
    var b := t.buckets[c.Index(pkt.saddr, pkt.sport)];
    var k := FindInternal(b, ip, port, 0);
    k < |b| ==> ToOutside(b[k], pkt.daddr, pkt.dport)
  }

  /** The answer to an inbound packet seems to come from where the packet went exactly unless an
      earlier mapping of the bucket has the same internal endpoint and another external one. */
  lemma InboundTripIff(c: Config, t: Table, pkt: Packet, now: int, answer: Packet, later: int)
    requires t.Valid() && TranslateIn(c, t, pkt, now).1.Some?
    requires AnswerTo(pkt, TranslateIn(c, t, pkt, now).1.value, answer)
    ensures TranslateOut(c, TranslateIn(c, t, pkt, now).0, answer, later).1 ==
            answer.(saddr := pkt.daddr, sport := pkt.dport) <==>
            AnswersAs(c, t, pkt, answer.saddr, answer.sport)
  {
    var i := c.Index(pkt.saddr, pkt.sport);
    var b, after := t.buckets[i], TranslateIn(c, t, pkt, now).0.buckets[i];
    var k := FindInternal(b, answer.saddr, answer.sport, 0);
    if k < |b| {
      PacketStays(c, t, In(pkt, now), i, k, answer.saddr, answer.sport);
    } else {
      assert after == b + [after[|b|]] && FromInside(after[|b|], answer.saddr, answer.sport);
    }
    assert FindInternal(after, answer.saddr, answer.sport, 0) == k;
  }

  /** It does happen: a server that has itself sent to a remote endpoint gets a packet from there by
      a DNAT rule, and its answer leaves under the port of its own mapping. */
  lemma InboundTripFails(c: Config, k: nat) returns (es: seq<Event>, pkt: Packet, answer: Packet)
    requires PoolIsOwn(c) && k < |c.rules|
    ensures TranslateIn(c, Run(c, es), pkt, 0).1.Some?
    ensures AnswerTo(pkt, TranslateIn(c, Run(c, es), pkt, 0).1.value, answer)
    ensures TranslateOut(c, TranslateIn(c, Run(c, es), pkt, 0).0, answer, 0).1 !=
            answer.(saddr := pkt.daddr, sport := pkt.dport)
  {
    pkt := Packet(0, 0, c.rules[k].extIp, c.rules[k].extPort, 0, 0, 0);
    assert Matches(c.rules[k], pkt.daddr, pkt.dport);
    var rule := c.rules[FindRule(c.rules, pkt.daddr, pkt.dport, 0)];
    answer := Packet(rule.intIp, rule.intPort, 0, 0, 0, 0, 0);
    es := [] + [Out(answer, 0)];
    RunOneMore(c, [], Out(answer, 0));
    var b := Run(c, es).buckets[c.Index(0, 0)];
    assert Pool(b[0].extPort) && !GivenAway(c, b[0].extPort);
    InboundTripIff(c, Run(c, es), pkt, 0, answer, 0);
  }

  // ---------------------------------------------------------------- a pool that has run out

  /** The packet from internal port `k` to one remote endpoint. */
  function From(k: nat): Packet {
    Packet(1, k, 2, 3, 0, 0, 0)
  }

  /** Senders 0 to n - 1 have one mapping each in their bucket, with the first ports of the pool. */
  ghost predicate FilledBy(c: Config, t: Table, n: nat)
    requires t.Valid()
  {
    var b := t.buckets[c.Index(2, 3)];
    && |b| == n <= PORT_MAX - PORT_MIN
    && (forall k :: 0 <= k < n ==> FromInside(b[k], 1, k) && b[k].extPort == PORT_MIN + k)
    && forall p: nat :: Pool(p) ==> (t.used[p] <==> p < PORT_MIN + n)
  }

  lemma FillOne(c: Config, t: Table, n: nat)
    requires t.Valid() && FilledBy(c, t, n) && n < PORT_MAX - PORT_MIN
    ensures FilledBy(c, TranslateOut(c, t, From(n), 0).0, n + 1)
  {
    assert FirstFree(t.used, PORT_MIN) == PORT_MIN + n by {
      assert Pool(PORT_MIN + n);
    }
  }

  lemma {:induction false} Fill(c: Config, n: nat) returns (es: seq<Event>)
    requires n <= PORT_MAX - PORT_MIN
    ensures FilledBy(c, Run(c, es), n)
  {
    if n == 0 {
      es := [];
    } else {
      es := Fill(c, n - 1);
      FillOne(c, Run(c, es), n - 1);
      RunOneMore(c, es, Out(From(n - 1), 0));
      es := es + [Out(From(n - 1), 0)];
    }
  }

  const POOL_SIZE: nat := PORT_MAX - PORT_MIN

  /** The first sender after the last port of the pool is gone gets port 0. */
  lemma OnePortless(c: Config) returns (es: seq<Event>)
    ensures var b := Run(c, es).buckets[c.Index(2, 3)];
            && |b| == POOL_SIZE + 1
            && (forall k :: 0 <= k <= POOL_SIZE ==>
                  FromInside(b[k], 1, k) && (b[k].extPort == 0 <==> k == POOL_SIZE))
            && b[POOL_SIZE].extIp == c.extIp
    ensures FirstFree(Run(c, es).used, PORT_MIN) == 0
  {
    es := Fill(c, POOL_SIZE);
    var t := Run(c, es);
    assert FirstFree(t.used, PORT_MIN) == 0;
    RunOneMore(c, es, Out(From(POOL_SIZE), 0));
    es := es + [Out(From(POOL_SIZE), 0)];
  }

  /** After a run that used up the pool, the reply to the second sender without a port goes to the
      first of them. */
  lemma RoundTripFails(c: Config, later: int) returns (es: seq<Event>, pkt: Packet, reply: Packet)
    requires PoolIsOwn(c)
    ensures var (t, out) := TranslateOut(c, Run(c, es), pkt, 0);
            && ReplyTo(pkt, out, reply)
            && TranslateIn(c, t, reply, later).1 == Some(reply.(daddr := pkt.saddr, dport := POOL_SIZE))
            && pkt.sport != POOL_SIZE
  {
    es := OnePortless(c);
    pkt := From(POOL_SIZE + 1);
    reply := Packet(2, 3, c.extIp, 0, 0, 0, 0);
    var b := Run(c, es).buckets[c.Index(2, 3)];
    var after := TranslateOut(c, Run(c, es), pkt, 0).0.buckets[c.Index(2, 3)];
    assert FindInternal(b, 1, POOL_SIZE + 1, 0) == |b|;
    assert after[..|b|] == b;
    forall k | 0 <= k < POOL_SIZE ensures !ToOutside(after[k], c.extIp, 0) {
      assert after[k] == b[k];
    }
    assert after[POOL_SIZE] == b[POOL_SIZE];
    assert FindExternal(after, c.extIp, 0, 0) == POOL_SIZE;
  }
}
