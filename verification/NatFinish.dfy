/**
 When a flow counts as finished: what its mapping records, read off the packets of the run, and how
 packets are changed on their way.
 */
module NatFinish {
  import opened Common
  import opened Nat
  import opened NatTheorems
  import opened NatFlows

  // ---------------------------------------------------------------- the packets of a flow

  /** The event is a packet out from the sender of `pkt` to a remote endpoint of the same bucket. */
  predicate IsOut(c: Config, pkt: Packet, e: Event) {
    && e.Out? && e.pkt.saddr == pkt.saddr && e.pkt.sport == pkt.sport
    && c.Index(e.pkt.daddr, e.pkt.dport) == c.Index(pkt.daddr, pkt.dport)
  }

  /** The event is a packet in from such a remote endpoint to the external endpoint of `out`. */
  predicate IsIn(c: Config, pkt: Packet, out: Packet, e: Event) {
    && e.In? && e.pkt.daddr == out.saddr && e.pkt.dport == out.sport
    && c.Index(e.pkt.saddr, e.pkt.sport) == c.Index(pkt.daddr, pkt.dport)
  }

  /** What a packet can raise: the sequence numbers seen of either side, and the acknowledgement
      numbers of packets whose only flag is ACK. */
  datatype Number = SeqOut | AckOut | SeqIn | AckIn

  function Shown(c: Config, pkt: Packet, out: Packet, n: Number, e: Event): Option<nat> {
    match n
    case SeqOut => if IsOut(c, pkt, e) then Some(e.pkt.seqNum) else None
    case AckOut => if IsOut(c, pkt, e) && e.pkt.flags == 0x10 then Some(e.pkt.ackNum) else None
    case SeqIn => if IsIn(c, pkt, out, e) then Some(e.pkt.seqNum) else None
    case AckIn => if IsIn(c, pkt, out, e) && e.pkt.flags == 0x10 then Some(e.pkt.ackNum) else None
  }

  /** `v` is the greatest number shown in `evs`, 0 without one. */
  ghost predicate IsGreatest(c: Config, pkt: Packet, out: Packet, n: Number, evs: seq<Event>, v: nat) {
    && (forall k :: 0 <= k < |evs| && Shown(c, pkt, out, n, evs[k]).Some? ==> Shown(c, pkt, out, n, evs[k]).value <= v)
    && (v == 0 || exists k :: 0 <= k < |evs| && Shown(c, pkt, out, n, evs[k]) == Some(v))
  }

  /** A packet whose only flag is FIN has left. */
  ghost predicate FinOut(c: Config, pkt: Packet, evs: seq<Event>) {
    exists k :: 0 <= k < |evs| && IsOut(c, pkt, evs[k]) && evs[k].pkt.flags == 0x01
  }

  /** The last packet that came in has FIN as its only flag. */
  ghost predicate FinInLast(c: Config, pkt: Packet, out: Packet, evs: seq<Event>) {
    exists k :: 0 <= k < |evs| && IsIn(c, pkt, out, evs[k]) && evs[k].pkt.flags == 0x01
      && forall l :: k < l < |evs| ==> !IsIn(c, pkt, out, evs[l])
  }

  ghost predicate Records(c: Config, pkt: Packet, out: Packet, evs: seq<Event>, f: Flow) {
    && (f.internalFin <==> FinOut(c, pkt, evs))
    && (f.externalFin <==> FinInLast(c, pkt, out, evs))
    && IsGreatest(c, pkt, out, SeqOut, evs, f.internalSeqEnd)
    && IsGreatest(c, pkt, out, AckOut, evs, f.internalAck)
    && IsGreatest(c, pkt, out, SeqIn, evs, f.externalSeqEnd)
    && IsGreatest(c, pkt, out, AckIn, evs, f.externalAck)
  }

  // ---------------------------------------------------------------- one more event

  lemma GreatestMore(c: Config, pkt: Packet, out: Packet, n: Number, evs: seq<Event>, e: Event, v: nat)
    requires IsGreatest(c, pkt, out, n, evs, v)
    ensures var s := Shown(c, pkt, out, n, e);
            IsGreatest(c, pkt, out, n, evs + [e], if s.Some? && s.value > v then s.value else v)
  {
    var more, s := evs + [e], Shown(c, pkt, out, n, e);
    assert forall k :: 0 <= k < |evs| ==> more[k] == evs[k];
    assert more[|evs|] == e;
    if v > 0 {
      var k :| 0 <= k < |evs| && Shown(c, pkt, out, n, evs[k]) == Some(v);
      assert more[k] == evs[k];
    }
  }

  lemma FinOutMore(c: Config, pkt: Packet, evs: seq<Event>, e: Event)
    ensures FinOut(c, pkt, evs + [e]) <==> FinOut(c, pkt, evs) || (IsOut(c, pkt, e) && e.pkt.flags == 0x01)
  {
    var more := evs + [e];
    assert more[|evs|] == e;
    if k :| 0 <= k < |evs| && IsOut(c, pkt, evs[k]) && evs[k].pkt.flags == 0x01 {
      assert more[k] == evs[k];
    }
  }

  lemma FinInMore(c: Config, pkt: Packet, out: Packet, evs: seq<Event>, e: Event)
    ensures FinInLast(c, pkt, out, evs + [e]) <==>
            if IsIn(c, pkt, out, e) then e.pkt.flags == 0x01 else FinInLast(c, pkt, out, evs)
  {
    var more := evs + [e];
    assert more[|evs|] == e;
    assert forall k :: 0 <= k < |evs| ==> more[k] == evs[k];
    if !IsIn(c, pkt, out, e) && FinInLast(c, pkt, out, evs) {
      var k :| 0 <= k < |evs| && IsIn(c, pkt, out, evs[k]) && evs[k].pkt.flags == 0x01
        && forall l :: k < l < |evs| ==> !IsIn(c, pkt, out, evs[l]);
      assert more[k] == evs[k];
    }
  }

  /** What one event does to the flow of the sender's mapping. */
  function FlowAfter(c: Config, pkt: Packet, out: Packet, f: Flow, e: Event): Flow {
    if IsOut(c, pkt, e) then SeenFromInside(f, e.pkt)
    else if IsIn(c, pkt, out, e) then SeenFromOutside(f, e.pkt)
    else f
  }

  lemma RecordsMore(c: Config, pkt: Packet, out: Packet, evs: seq<Event>, f: Flow, e: Event)
    requires Records(c, pkt, out, evs, f)
    ensures Records(c, pkt, out, evs + [e], FlowAfter(c, pkt, out, f, e))
  {
    FinOutMore(c, pkt, evs, e);
    FinInMore(c, pkt, out, evs, e);
    GreatestMore(c, pkt, out, SeqOut, evs, e, f.internalSeqEnd);
    GreatestMore(c, pkt, out, AckOut, evs, e, f.internalAck);
    GreatestMore(c, pkt, out, SeqIn, evs, e, f.externalSeqEnd);
    GreatestMore(c, pkt, out, AckIn, evs, e, f.externalAck);
  }

  lemma FlowChanges(c: Config, t: Table, e: Event, pkt: Packet, out: Packet)
    requires t.Valid() && MappingOf(c, t, pkt).Some? && OwnedIn(t.buckets[c.Index(pkt.daddr, pkt.dport)])
    requires var m := MappingOf(c, t, pkt).value;
             ToOutside(m, out.saddr, out.sport) && out.sport != 0 && (e.Tick? ==> !Expired(m, e.now))
    ensures var m := MappingOf(c, t, pkt).value;
            MappingOf(c, Step(c, t, e), pkt) == Some(m.(flow := FlowAfter(c, pkt, out, m.flow, e)))
  {
    var i := c.Index(pkt.daddr, pkt.dport);
    var b := t.buckets[i];
    var j := FindInternal(b, pkt.saddr, pkt.sport, 0);
    if e.Tick? {
      KeptFirst(b, pkt.saddr, pkt.sport, e.now);
    } else {
      PacketStays(c, t, e, i, j, pkt.saddr, pkt.sport);
      assert Step(c, t, e).buckets[i][j] == b[j].(flow := FlowAfter(c, pkt, out, b[j].flow, e));
    }
  }

  // ---------------------------------------------------------------- a whole run

  lemma NothingRecorded(c: Config, pkt: Packet, out: Packet)
    ensures Records(c, pkt, out, [], NEW_FLOW)
  {
  }

  lemma FirstRecorded(c: Config, t: Table, pkt: Packet, start: int, out: Packet)
    requires t.Valid() && StartsFlow(c, t, pkt)
    ensures var m := MappingOf(c, TranslateOut(c, t, pkt, start).0, pkt);
            m.Some? && Records(c, pkt, out, [Out(pkt, start)], m.value.flow)
  {
    var i := c.Index(pkt.daddr, pkt.dport);
    var after := TranslateOut(c, t, pkt, start).0.buckets[i];
    var b := t.buckets[i];
    assert after == b + [after[|b|]] && FromInside(after[|b|], pkt.saddr, pkt.sport);
    assert forall l :: 0 <= l < |b| ==> after[l] == b[l];
    assert FindInternal(after, pkt.saddr, pkt.sport, 0) == |t.buckets[i]|;
    NothingRecorded(c, pkt, out);
    RecordsMore(c, pkt, out, [], NEW_FLOW, Out(pkt, start));
    assert [] + [Out(pkt, start)] == [Out(pkt, start)];
  }

  lemma {:induction false} RecordsGoOn(c: Config, sent: seq<Event>, pkt: Packet, start: int, out: Packet,
                                       evs: seq<Event>, more: seq<Event>)
    requires PoolIsOwn(c) && FlowHas(c, sent, pkt, start, out) && out.sport != 0
    requires Records(c, pkt, out, evs, MappingOf(c, Run(c, sent), pkt).value.flow)
    requires Undisturbed(c, sent, pkt, start, more)
    ensures FlowHas(c, sent + more, pkt, start, out)
    ensures Records(c, pkt, out, evs + more, MappingOf(c, Run(c, sent + more), pkt).value.flow)
  {
    FlowGoesOn(c, sent, pkt, start, more, out);
    if more == [] {
      assert sent + more == sent && evs + more == evs;
    } else {
      var front, e := more[..|more| - 1], more[|more| - 1];
      UndisturbedBefore(c, sent, pkt, start, more);
      RecordsGoOn(c, sent, pkt, start, out, evs, front);
      RecordedNext(c, sent + front, pkt, start, out, evs + front, e);
      LastApart(sent, more);
      LastApart(evs, more);
    }
  }

  lemma RecordedSoFar(c: Config, es: seq<Event>, pkt: Packet, start: int, more: seq<Event>, out: Packet)
    requires PoolIsOwn(c) && StartsFlow(c, Run(c, es), pkt)
    requires out == TranslateOut(c, Run(c, es), pkt, start).1 && out.sport != 0
    requires Undisturbed(c, es + [Out(pkt, start)], pkt, start, more)
    ensures var m := MappingOf(c, Run(c, Later(es, pkt, start, more)), pkt);
            m.Some? && Records(c, pkt, out, [Out(pkt, start)] + more, m.value.flow)
  {
    FlowStart(c, es, pkt, start);
    RunOneMore(c, es, Out(pkt, start));
    FirstRecorded(c, Run(c, es), pkt, start, out);
    RecordsGoOn(c, es + [Out(pkt, start)], pkt, start, out, [Out(pkt, start)], more);
  }

  lemma RecordedNext(c: Config, run: seq<Event>, pkt: Packet, start: int, out: Packet, evs: seq<Event>, e: Event)
    requires PoolIsOwn(c) && FlowHas(c, run, pkt, start, out) && out.sport != 0
    requires Records(c, pkt, out, evs, MappingOf(c, Run(c, run), pkt).value.flow)
    requires e.Tick? ==> e.now - start <= 60 && !Finished(MappingOf(c, Run(c, run), pkt).value.flow)
    ensures var m := MappingOf(c, Run(c, run + [e]), pkt);
            m.Some? && Records(c, pkt, out, evs + [e], m.value.flow)
  {
    RunIsOwned(c, run, c.Index(pkt.daddr, pkt.dport));
    RunOneMore(c, run, e);
    FlowChanges(c, Run(c, run), e, pkt, out);
    RecordsMore(c, pkt, out, evs, MappingOf(c, Run(c, run), pkt).value.flow, e);
  }

  /** A flow that has a port counts as finished exactly when a packet with FIN alone has left, the last
      one that came in has FIN alone, and every sequence number seen of either side has been reached by
      an acknowledgement number of a packet with ACK alone from the other. */
  lemma FinishedIff(c: Config, es: seq<Event>, pkt: Packet, start: int, more: seq<Event>)
    requires PoolIsOwn(c) && StartsFlow(c, Run(c, es), pkt)
    requires TranslateOut(c, Run(c, es), pkt, start).1.sport != 0
    requires Undisturbed(c, es + [Out(pkt, start)], pkt, start, more)
    ensures var out, evs := TranslateOut(c, Run(c, es), pkt, start).1, [Out(pkt, start)] + more;
            var m := MappingOf(c, Run(c, Later(es, pkt, start, more)), pkt);
            && m.Some?
            && (Finished(m.value.flow) <==>
                && FinOut(c, pkt, evs) && FinInLast(c, pkt, out, evs)
                && Reached(c, pkt, out, SeqIn, AckOut, evs) && Reached(c, pkt, out, SeqOut, AckIn, evs))
  {
    var out, evs := TranslateOut(c, Run(c, es), pkt, start).1, [Out(pkt, start)] + more;
    RecordedSoFar(c, es, pkt, start, more, out);
    var f := MappingOf(c, Run(c, Later(es, pkt, start, more)), pkt).value.flow;
    ReachedIff(c, pkt, out, SeqIn, AckOut, evs, f.externalSeqEnd, f.internalAck);
    ReachedIff(c, pkt, out, SeqOut, AckIn, evs, f.internalSeqEnd, f.externalAck);
  }

  /** Every number of one kind but 0 has one of the other at or above it. */
  ghost predicate Reached(c: Config, pkt: Packet, out: Packet, n: Number, up: Number, evs: seq<Event>) {
    forall k :: 0 <= k < |evs| && Shown(c, pkt, out, n, evs[k]).Some? ==>
      ReachedBy(c, pkt, out, up, evs, Shown(c, pkt, out, n, evs[k]).value)
  }

  ghost predicate ReachedBy(c: Config, pkt: Packet, out: Packet, up: Number, evs: seq<Event>, v: nat) {
    v == 0 || exists l :: 0 <= l < |evs| && Shown(c, pkt, out, up, evs[l]).Some? &&
                          Shown(c, pkt, out, up, evs[l]).value >= v
  }

  lemma ReachedIff(c: Config, pkt: Packet, out: Packet, n: Number, up: Number, evs: seq<Event>, v: nat, w: nat)
    requires IsGreatest(c, pkt, out, n, evs, v) && IsGreatest(c, pkt, out, up, evs, w)
    ensures Reached(c, pkt, out, n, up, evs) <==> w >= v
  {
    if w >= v {
      forall k | 0 <= k < |evs| && Shown(c, pkt, out, n, evs[k]).Some?
        ensures ReachedBy(c, pkt, out, up, evs, Shown(c, pkt, out, n, evs[k]).value)
      {
        if w > 0 {
          var l :| 0 <= l < |evs| && Shown(c, pkt, out, up, evs[l]) == Some(w);
        }
      }
    } else {
      var k :| 0 <= k < |evs| && Shown(c, pkt, out, n, evs[k]) == Some(v);
    }
  }

  // ---------------------------------------------------------------- what becomes of a packet

  /** An outgoing packet leaves with another source and is otherwise unchanged; a sender without a
      mapping gets the address of the external interface and the first free port of the pool, or 0. */
  lemma OutChangesSource(c: Config, t: Table, pkt: Packet, now: int)
    requires t.Valid()
    ensures var (after, out) := TranslateOut(c, t, pkt, now);
            && out == pkt.(saddr := out.saddr, sport := out.sport)
            && (match MappingOf(c, t, pkt)
                case Some(m) => after.used == t.used && out.saddr == m.extIp && out.sport == m.extPort
                case None =>
                  && out.saddr == c.extIp
                  && (out.sport == 0 <==> forall p: nat :: Pool(p) ==> t.used[p])
                  && (out.sport != 0 ==>
                        && Pool(out.sport) && after.used == t.used[out.sport := true] && !t.used[out.sport]
                        && forall p: nat :: Pool(p) && p < out.sport ==> t.used[p]))
  {
    if MappingOf(c, t, pkt).None? {
      assert FirstFree(t.used, PORT_MIN) == 0 || Pool(FirstFree(t.used, PORT_MIN));
    }
  }

  /** Mapping `j` is the first of the bucket for the external endpoint. */
  predicate FirstMapping(b: seq<Mapping>, ip: nat, port: nat, j: nat) {
    j < |b| && ToOutside(b[j], ip, port) && forall i :: 0 <= i < j ==> !ToOutside(b[i], ip, port)
  }

  predicate NoMapping(b: seq<Mapping>, ip: nat, port: nat) {
    forall j :: 0 <= j < |b| ==> !ToOutside(b[j], ip, port)
  }

  /** Rule `k` is the first for the endpoint. */
  predicate FirstRule(rules: seq<Rule>, ip: nat, port: nat, k: nat) {
    k < |rules| && Matches(rules[k], ip, port) && forall i :: 0 <= i < k ==> !Matches(rules[i], ip, port)
  }

  /** An inbound packet goes on with another destination and otherwise unchanged: to the owner of the
      first mapping of its bucket for the endpoint it was sent to; without one, by the first rule for
      that endpoint; and without either it goes nowhere and changes nothing. */
  lemma InChangesDestination(c: Config, t: Table, pkt: Packet, now: int)
    requires t.Valid()
    ensures var (after, inside) := TranslateIn(c, t, pkt, now);
            var b := t.buckets[c.Index(pkt.saddr, pkt.sport)];
            && after.used == t.used
            && (forall j: nat :: FirstMapping(b, pkt.daddr, pkt.dport, j) ==>
                  inside == Some(pkt.(daddr := b[j].intIp, dport := b[j].intPort)))
            && (forall k: nat :: NoMapping(b, pkt.daddr, pkt.dport) && FirstRule(c.rules, pkt.daddr, pkt.dport, k) ==>
                  inside == Some(pkt.(daddr := c.rules[k].intIp, dport := c.rules[k].intPort)))
            && (inside.None? ==> after == t)
            && (inside.None? <==>
                && NoMapping(b, pkt.daddr, pkt.dport)
                && forall k :: 0 <= k < |c.rules| ==> !Matches(c.rules[k], pkt.daddr, pkt.dport))
  {
    var b := t.buckets[c.Index(pkt.saddr, pkt.sport)];
    var j0, k0 := FindExternal(b, pkt.daddr, pkt.dport, 0), FindRule(c.rules, pkt.daddr, pkt.dport, 0);
    assert forall j: nat :: FirstMapping(b, pkt.daddr, pkt.dport, j) ==> j == j0;
    assert forall k: nat :: FirstRule(c.rules, pkt.daddr, pkt.dport, k) ==> k == k0;
  }

  /** An inbound packet that a rule lets in starts a mapping with the rule's ends and the time of the
      packet, which records the packet as the first from outside. */
  lemma RuleStartsMapping(c: Config, t: Table, pkt: Packet, now: int, k: nat)
    requires t.Valid() && FirstRule(c.rules, pkt.daddr, pkt.dport, k)
    requires NoMapping(t.buckets[c.Index(pkt.saddr, pkt.sport)], pkt.daddr, pkt.dport)
    ensures var i := c.Index(pkt.saddr, pkt.sport);
            var b, after := t.buckets[i], TranslateIn(c, t, pkt, now).0.buckets[i];
            && |after| == |b| + 1 && after[..|b|] == b
            && var m := after[|b|];
               && FromInside(m, c.rules[k].intIp, c.rules[k].intPort) && ToOutside(m, pkt.daddr, pkt.dport)
               && m.time == now
               && (m.flow.externalFin <==> pkt.flags == 0x01) && !m.flow.internalFin
               && m.flow.externalSeqEnd == pkt.seqNum && m.flow.internalSeqEnd == 0 == m.flow.internalAck
               && m.flow.externalAck == if pkt.flags == 0x10 then pkt.ackNum else 0
  {
    assert FindRule(c.rules, pkt.daddr, pkt.dport, 0) == k;
  }

  /** A sweep takes each part of a bucket by itself, so it keeps the order and every copy. */
  lemma {:induction false} KeptOfParts(a: seq<Mapping>, b: seq<Mapping>, now: int)
    ensures Kept(a + b, now) == Kept(a, now) + Kept(b, now)
    ensures |b| == 1 ==> Kept(b, now) == if Expired(b[0], now) then [] else b
    decreases |b|
  {
    if b == [] {
      assert a + b == a;
    } else {
      var front, last := b[..|b| - 1], b[|b| - 1];
      assert (a + b)[..|a + b| - 1] == a + front && (a + b)[|a + b| - 1] == last;
      KeptOfParts(a, front, now);
    }
  }
}
