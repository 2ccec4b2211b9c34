/**
 What holds of the translation table in every run: a pool port is marked exactly while one mapping
 holds it, as long as no DNAT rule gives it away; a reply finds its way back; and what happens when
 the pool is empty.
 */
module NatTheorems {
  import opened Common
  import opened Nat

  datatype Event = Out(pkt: Packet, now: int) | In(pkt: Packet, now: int) | Tick(now: int)

  function Step(c: Config, t: Table, e: Event): (r: Table)
    requires t.Valid()
    ensures r.Valid()
  {
    match e
    case Out(pkt, now) => TranslateOut(c, t, pkt, now).0
    case In(pkt, now) => TranslateIn(c, t, pkt, now).0
    case Tick(now) => Sweep(t, now)
  }

  /** nat_init */
  function Fresh(): (t: Table)
    ensures t.Valid()
  {
    Table(seq(ALL_PORTS, _ => false), seq(BUCKETS, _ => []))
  }

  function Run(c: Config, es: seq<Event>): (t: Table)
    ensures t.Valid()
  {
    if es == [] then Fresh() else Step(c, Run(c, es[..|es| - 1]), es[|es| - 1])
  }

  lemma RunOneMore(c: Config, es: seq<Event>, e: Event)
    ensures Run(c, es + [e]) == Step(c, Run(c, es), e)
  {
    assert (es + [e])[..|es|] == es;
  }

  // ---------------------------------------------------------------- counting the holders of a port

  function CountIn(b: seq<Mapping>, p: nat): nat {
    if b == [] then 0 else CountIn(b[..|b| - 1], p) + if b[|b| - 1].extPort == p then 1 else 0
  }

  function CountAll(buckets: seq<seq<Mapping>>, n: nat, p: nat): nat
    requires n <= |buckets|
  {
    if n == 0 then 0 else CountAll(buckets, n - 1, p) + CountIn(buckets[n - 1], p)
  }

  lemma {:induction false} CountUpdated(b: seq<Mapping>, j: nat, m: Mapping, p: nat)
    requires j < |b| && m.extPort == b[j].extPort
    ensures CountIn(b[j := m], p) == CountIn(b, p)
  {
    var k := |b| - 1;
    if j < k {
      CountUpdated(b[..k], j, m, p);
      assert b[j := m][..k] == b[..k][j := m];
    } else {
      assert b[j := m][..k] == b[..k];
    }
  }

  lemma CountAppended(b: seq<Mapping>, m: Mapping, p: nat)
    ensures CountIn(b + [m], p) == CountIn(b, p) + if m.extPort == p then 1 else 0
  {
    assert (b + [m])[..|b|] == b;
  }

  lemma {:induction false} CountReplaced(buckets: seq<seq<Mapping>>, i: nat, b: seq<Mapping>, n: nat, p: nat)
    requires i < |buckets| && n <= |buckets|
    ensures CountAll(buckets[i := b], n, p) ==
            CountAll(buckets, n, p) + if i < n then CountIn(b, p) - CountIn(buckets[i], p) else 0
  {
    if n > 0 {
      CountReplaced(buckets, i, b, n - 1, p);
    }
  }

  lemma {:induction false} CountFromOne(b: seq<Mapping>, j: nat, p: nat)
    requires j < |b| && b[j].extPort == p
    ensures CountIn(b, p) > 0
  {
    if j < |b| - 1 {
      CountFromOne(b[..|b| - 1], j, p);
    }
  }

  lemma {:induction false} CountInAll(buckets: seq<seq<Mapping>>, i: nat, n: nat, p: nat)
    requires i < n <= |buckets|
    ensures CountIn(buckets[i], p) <= CountAll(buckets, n, p)
  {
    if i < n - 1 {
      CountInAll(buckets, i, n - 1, p);
    }
  }

  // ---------------------------------------------------------------- the pool

  /** A port is marked and held once, or neither. */
  predicate Exact(t: Table, p: nat)
    requires t.Valid() && p < ALL_PORTS
  {
    CountAll(t.buckets, BUCKETS, p) == if t.used[p] then 1 else 0
  }

  predicate GivenAway(c: Config, p: nat) {
    exists k :: 0 <= k < |c.rules| && c.rules[k].extPort == p
  }

  lemma FreedIsHeld(b: seq<Mapping>, now: int, p: nat)
    ensures FreedIn(b, |b|, now, p) ==> CountIn(b, p) > 0
  {
    if j :| 0 <= j < |b| && Expired(b[j], now) && b[j].extPort == p {
      CountFromOne(b, j, p);
    }
  }

  lemma {:induction false} KeptCount(b: seq<Mapping>, now: int, p: nat)
    ensures !FreedIn(b, |b|, now, p) ==> CountIn(Kept(b, now), p) == CountIn(b, p)
    ensures FreedIn(b, |b|, now, p) && CountIn(b, p) <= 1 ==> CountIn(Kept(b, now), p) == 0
    ensures CountIn(Kept(b, now), p) <= CountIn(b, p)
  {
    if b != [] {
      var front, last := b[..|b| - 1], b[|b| - 1];
      KeptCount(front, now, p);
      FreedInStep(b, now, p);
      if Expired(last, now) {
        FreedIsHeld(front, now, p);
      } else {
        CountAppended(Kept(front, now), last, p);
        FreedIsHeld(front, now, p);
      }
    }
  }

  lemma FreedInStep(b: seq<Mapping>, now: int, p: nat)
    requires b != []
    ensures FreedIn(b, |b|, now, p) <==>
            FreedIn(b[..|b| - 1], |b| - 1, now, p) || (Expired(b[|b| - 1], now) && b[|b| - 1].extPort == p)
  {
    var front := b[..|b| - 1];
    if FreedIn(front, |b| - 1, now, p) {
      var j :| 0 <= j < |b| - 1 && Expired(front[j], now) && front[j].extPort == p;
      assert b[j] == front[j];
    }
    if j :| 0 <= j < |b| - 1 && Expired(b[j], now) && b[j].extPort == p {
      assert front[j] == b[j];
    }
  }

  lemma {:induction false} SweptCount(buckets: seq<seq<Mapping>>, kept: seq<seq<Mapping>>, n: nat, now: int, p: nat)
    requires n <= |buckets| == |kept| && forall i :: 0 <= i < |kept| ==> kept[i] == Kept(buckets[i], now)
    ensures !Freed(buckets, n, now, p) ==> CountAll(kept, n, p) == CountAll(buckets, n, p)
    ensures Freed(buckets, n, now, p) && CountAll(buckets, n, p) <= 1 ==> CountAll(kept, n, p) == 0
    ensures Freed(buckets, n, now, p) ==> CountAll(buckets, n, p) > 0
    ensures CountAll(kept, n, p) <= CountAll(buckets, n, p)
  {
    if n > 0 {
      var b := buckets[n - 1];
      SweptCount(buckets, kept, n - 1, now, p);
      KeptCount(b, now, p);
      FreedIsHeld(b, now, p);
      assert Freed(buckets, n, now, p) <==> Freed(buckets, n - 1, now, p) || FreedIn(b, |b|, now, p);
    }
  }

  lemma SweepExact(t: Table, now: int, p: nat)
    requires t.Valid() && p < ALL_PORTS && Exact(t, p)
    ensures Exact(Sweep(t, now), p)
  {
    SweptCount(t.buckets, Sweep(t, now).buckets, BUCKETS, now, p);
  }

  lemma OutExact(c: Config, t: Table, pkt: Packet, now: int, p: nat)
    requires t.Valid() && Pool(p) && Exact(t, p)
    ensures Exact(TranslateOut(c, t, pkt, now).0, p)
  {
    var i := c.Index(pkt.daddr, pkt.dport);
    var b := t.buckets[i];
    var j := FindInternal(b, pkt.saddr, pkt.sport, 0);
    var after := TranslateOut(c, t, pkt, now).0.buckets[i];
    CountReplaced(t.buckets, i, after, BUCKETS, p);
    if j < |b| {
      CountUpdated(b, j, after[j], p);
    } else {
      CountAppended(b, after[|b|], p);
    }
  }

  lemma InExact(c: Config, t: Table, pkt: Packet, now: int, p: nat)
    requires t.Valid() && Pool(p) && !GivenAway(c, p) && Exact(t, p)
    ensures Exact(TranslateIn(c, t, pkt, now).0, p)
  {
    var i := c.Index(pkt.saddr, pkt.sport);
    var b := t.buckets[i];
    var j := FindExternal(b, pkt.daddr, pkt.dport, 0);
    var after := TranslateIn(c, t, pkt, now).0.buckets[i];
    CountReplaced(t.buckets, i, after, BUCKETS, p);
    if j < |b| {
      CountUpdated(b, j, after[j], p);
    } else if FindRule(c.rules, pkt.daddr, pkt.dport, 0) < |c.rules| {
      CountAppended(b, after[|b|], p);
    }
  }

  lemma {:induction false} FreshCount(n: nat, p: nat)
    requires n <= BUCKETS
    ensures CountAll(Fresh().buckets, n, p) == 0
  {
    if n > 0 {
      FreshCount(n - 1, p);
    }
  }

  lemma {:induction false} RunExact(c: Config, es: seq<Event>, p: nat)
    requires Pool(p) && !GivenAway(c, p)
    ensures Exact(Run(c, es), p)
  {
    if es == [] {
      FreshCount(BUCKETS, p);
    } else {
      var before, e := es[..|es| - 1], es[|es| - 1];
      RunExact(c, before, p);
      match e
      case Out(pkt, now) => OutExact(c, Run(c, before), pkt, now, p);
      case In(pkt, now) => InExact(c, Run(c, before), pkt, now, p);
      case Tick(now) => SweepExact(Run(c, before), now, p);
    }
  }

  /** A packet for a rule puts one more holder of the rule's port into the table and marks nothing. */
  lemma RuleAdds(c: Config, t: Table, pkt: Packet, now: int)
    requires t.Valid() && t.buckets[c.Index(pkt.saddr, pkt.sport)] == []
    requires exists k :: 0 <= k < |c.rules| && Matches(c.rules[k], pkt.daddr, pkt.dport)
    ensures var after := TranslateIn(c, t, pkt, now).0;
            after.used == t.used &&
            CountAll(after.buckets, BUCKETS, pkt.dport) == CountAll(t.buckets, BUCKETS, pkt.dport) + 1
  {
    var i := c.Index(pkt.saddr, pkt.sport);
    var k := FindRule(c.rules, pkt.daddr, pkt.dport, 0);
    var after := TranslateIn(c, t, pkt, now).0;
    CountReplaced(t.buckets, i, after.buckets[i], BUCKETS, pkt.dport);
    CountAppended([], after.buckets[i][0], pkt.dport);
    assert after.buckets[i] == [] + [after.buckets[i][0]];
  }

  /** One packet for a DNAT rule with a pool port leaves that port held but not marked. */
  lemma GivenAwayBreaks(c: Config, p: nat)
    requires Pool(p) && GivenAway(c, p)
    ensures exists e :: !Exact(Run(c, [e]), p)
  {
    var k :| 0 <= k < |c.rules| && c.rules[k].extPort == p;
    var pkt := Packet(0, 0, c.rules[k].extIp, p, 0, 0, 0);
    assert Matches(c.rules[k], pkt.daddr, pkt.dport);
    RuleAdds(c, Fresh(), pkt, 0);
    FreshCount(BUCKETS, p);
    var e := In(pkt, 0);
    RunOneMore(c, [], e);
    assert [] + [e] == [e];
    assert !Exact(Run(c, [e]), p);
  }

  /** In every run a pool port is marked exactly while one mapping holds it, if and only if no DNAT
      rule gives it away. */
  lemma PoolExactIff(c: Config, p: nat)
    requires Pool(p)
    ensures (forall es :: Exact(Run(c, es), p)) <==> !GivenAway(c, p)
  {
    if GivenAway(c, p) {
      GivenAwayBreaks(c, p);
    } else {
      forall es ensures Exact(Run(c, es), p) {
        RunExact(c, es, p);
      }
    }
  }

  // ---------------------------------------------------------------- who answers to an external port

  /** Mappings of a bucket differ in their external endpoint, but for port 0 of an empty pool. */
  predicate OwnedIn(b: seq<Mapping>) {
    forall j, k :: 0 <= j < k < |b| && b[j].extPort == b[k].extPort && b[j].extIp == b[k].extIp ==> b[j].extPort == 0
  }

  predicate Owned(t: Table)
    requires t.Valid()
  {
    forall i :: 0 <= i < BUCKETS ==> OwnedIn(t.buckets[i])
  }

  ghost predicate PoolIsOwn(c: Config) {
    forall p :: Pool(p) ==> !GivenAway(c, p)
  }

  lemma {:induction false} KeptOwned(b: seq<Mapping>, now: int)
    requires OwnedIn(b)
    ensures OwnedIn(Kept(b, now))
    ensures forall m :: m in Kept(b, now) ==> m in b
  {
    if b != [] {
      var front, last := b[..|b| - 1], b[|b| - 1];
      KeptOwned(front, now);
      if !Expired(last, now) {
        forall j | 0 <= j < |Kept(front, now)| && ToOutside(Kept(front, now)[j], last.extIp, last.extPort)
          ensures last.extPort == 0
        {
          assert Kept(front, now)[j] in front;
          var k :| 0 <= k < |front| && front[k] == Kept(front, now)[j];
          assert b[k] == front[k];
        }
      }
    }
  }

  /** A port that was free is held by nobody. */
  lemma FreeIsUnheld(t: Table, i: nat, j: nat, p: nat)
    requires t.Valid() && Pool(p) && Exact(t, p) && !t.used[p] && i < BUCKETS && j < |t.buckets[i]|
    ensures t.buckets[i][j].extPort != p
  {
    if t.buckets[i][j].extPort == p {
      CountFromOne(t.buckets[i], j, p);
      CountInAll(t.buckets, i, BUCKETS, p);
    }
  }

  lemma OutOwned(c: Config, t: Table, pkt: Packet, now: int)
    requires t.Valid() && Owned(t) && forall p :: Pool(p) ==> Exact(t, p)
    ensures Owned(TranslateOut(c, t, pkt, now).0)
  {
    var i := c.Index(pkt.daddr, pkt.dport);
    var b := t.buckets[i];
    var after := TranslateOut(c, t, pkt, now).0.buckets[i];
    assert OwnedIn(b);
    if FindInternal(b, pkt.saddr, pkt.sport, 0) == |b| {
      var p := FirstFree(t.used, PORT_MIN);
      forall j | 0 <= j < |b| ensures p != 0 ==> b[j].extPort != p {
        if p != 0 {
          FreeIsUnheld(t, i, j, p);
        }
      }
    }
    assert OwnedIn(after);
  }

  lemma InOwned(c: Config, t: Table, pkt: Packet, now: int)
    requires t.Valid() && Owned(t)
    ensures Owned(TranslateIn(c, t, pkt, now).0)
  {
    var i := c.Index(pkt.saddr, pkt.sport);
    var b := t.buckets[i];
    var after := TranslateIn(c, t, pkt, now).0.buckets[i];
    assert OwnedIn(b);
    assert FindExternal(b, pkt.daddr, pkt.dport, 0) == |b| ==>
        forall j :: 0 <= j < |b| ==> !ToOutside(b[j], pkt.daddr, pkt.dport);
    assert OwnedIn(after);
  }

  lemma {:induction false} RunOwned(c: Config, es: seq<Event>)
    requires PoolIsOwn(c)
    ensures Owned(Run(c, es))
  {
    if es != [] {
      var before, e := es[..|es| - 1], es[|es| - 1];
      var t := Run(c, before);
      RunOwned(c, before);
      match e
      case Out(pkt, now) =>
        forall p | Pool(p) ensures Exact(t, p) {
          RunExact(c, before, p);
        }
        OutOwned(c, t, pkt, now);
      case In(pkt, now) => InOwned(c, t, pkt, now);
      case Tick(now) =>
        forall i | 0 <= i < BUCKETS ensures OwnedIn(Sweep(t, now).buckets[i]) {
          KeptOwned(t.buckets[i], now);
        }
    }
  }

  /** In every run a packet for the external endpoint of a mapping reaches the mapping's owner. */
  lemma OwnerIsReached(c: Config, es: seq<Event>, j: nat, pkt: Packet, now: int)
    requires PoolIsOwn(c) && pkt.dport != 0
    requires var b := Run(c, es).buckets[c.Index(pkt.saddr, pkt.sport)];
             j < |b| && ToOutside(b[j], pkt.daddr, pkt.dport)
    ensures var m := Run(c, es).buckets[c.Index(pkt.saddr, pkt.sport)][j];
            TranslateIn(c, Run(c, es), pkt, now).1 == Some(pkt.(daddr := m.intIp, dport := m.intPort))
  {
    var i := c.Index(pkt.saddr, pkt.sport);
    var b := Run(c, es).buckets[i];
    RunOwned(c, es);
    assert OwnedIn(b);
    var k := FindExternal(b, pkt.daddr, pkt.dport, 0);
    assert k == j;
  }

  // ---------------------------------------------------------------- out and back

  /** A reply comes from where the packet went, to where the packet seems to come from. */
  predicate ReplyTo(pkt: Packet, out: Packet, reply: Packet) {
    && reply.saddr == pkt.daddr && reply.sport == pkt.dport
    && reply.daddr == out.saddr && reply.dport == out.sport
  }

  /** Before the sender's mapping its bucket has one with the same external address and port 0. */
  predicate Displaced(c: Config, t: Table, pkt: Packet, extIp: nat)
    requires t.Valid()
  {
    var b := t.buckets[c.Index(pkt.daddr, pkt.dport)];
    exists j :: 0 <= j < FindInternal(b, pkt.saddr, pkt.sport, 0) && ToOutside(b[j], extIp, 0)
  }

  /** The mapping an outgoing packet leaves in its bucket, and its place there. */
  lemma OutLeaves(c: Config, t: Table, pkt: Packet, now: int)
    requires t.Valid()
    ensures var i, r := c.Index(pkt.daddr, pkt.dport), TranslateOut(c, t, pkt, now);
            var j := FindInternal(t.buckets[i], pkt.saddr, pkt.sport, 0);
            && j < |r.0.buckets[i]|
            && FromInside(r.0.buckets[i][j], pkt.saddr, pkt.sport)
            && ToOutside(r.0.buckets[i][j], r.1.saddr, r.1.sport)
            && r.0.buckets[i][..j] == t.buckets[i][..j]
  {
  }

  /** Out and back restores the sender exactly unless the pool had run out and the sender's mapping
      is not the first of its bucket without a port. */
  lemma RoundTripIff(c: Config, es: seq<Event>, pkt: Packet, now: int, reply: Packet, later: int)
    requires PoolIsOwn(c)
    requires ReplyTo(pkt, TranslateOut(c, Run(c, es), pkt, now).1, reply)
    ensures var (t, out) := TranslateOut(c, Run(c, es), pkt, now);
            TranslateIn(c, t, reply, later).1 == Some(reply.(daddr := pkt.saddr, dport := pkt.sport)) <==>
            !(out.sport == 0 && Displaced(c, Run(c, es), pkt, out.saddr))
  {
    var before := Run(c, es);
    var (t, out) := TranslateOut(c, before, pkt, now);
    var i := c.Index(pkt.daddr, pkt.dport);
    var b := t.buckets[i];
    var j := FindInternal(before.buckets[i], pkt.saddr, pkt.sport, 0);
    OutLeaves(c, before, pkt, now);
    var k := FindExternal(b, out.saddr, out.sport, 0);
    assert k <= j;
    assert k < j ==> b[k] == b[..j][k] == before.buckets[i][k];
    if out.sport == 0 {
      if l :| 0 <= l < j && ToOutside(before.buckets[i][l], out.saddr, 0) {
        assert b[l] == b[..j][l];
        assert k <= l;
      }
    } else {
      RunIsOwned(c, es + [Out(pkt, now)], i);
      RunOneMore(c, es, Out(pkt, now));
      assert k == j;
    }
  }

  lemma RunIsOwned(c: Config, es: seq<Event>, i: nat)
    requires PoolIsOwn(c) && i < BUCKETS
    ensures OwnedIn(Run(c, es).buckets[i])
  {
    RunOwned(c, es);
  }

  // ---------------------------------------------------------------- an empty pool, a sweep

  /** No mapping of its bucket belongs to the packet's sender, so the packet makes one. */
  predicate StartsFlow(c: Config, t: Table, pkt: Packet)
    requires t.Valid()
  {
    var b := t.buckets[c.Index(pkt.daddr, pkt.dport)];
    forall j :: 0 <= j < |b| ==> !FromInside(b[j], pkt.saddr, pkt.sport)
  }

  /** A new mapping gets port 0 exactly when every pool port is held by one mapping. */
  lemma NoPortIff(c: Config, es: seq<Event>, pkt: Packet, now: int)
    requires PoolIsOwn(c)
    requires StartsFlow(c, Run(c, es), pkt)
    ensures TranslateOut(c, Run(c, es), pkt, now).1.sport == 0 <==>
            forall p :: Pool(p) ==> CountAll(Run(c, es).buckets, BUCKETS, p) == 1
  {
    var t := Run(c, es);
    forall p | Pool(p) ensures Exact(t, p) {
      RunExact(c, es, p);
    }
    var p := FirstFree(t.used, PORT_MIN);
    if p != 0 {
      assert Pool(p) && Exact(t, p);
    }
  }

  lemma {:induction false} KeptIsYoung(b: seq<Mapping>, now: int, m: Mapping)
    ensures m in Kept(b, now) <==> m in b && !Expired(m, now)
  {
    if b != [] {
      KeptIsYoung(b[..|b| - 1], now, m);
      assert m in b <==> m in b[..|b| - 1] || m == b[|b| - 1];
    }
  }
}
