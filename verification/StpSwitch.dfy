/**
 One switch of the spanning tree protocol: the values it stores, what the
 handlers of stp.c compute from them, and what acceptance of a configuration
 message does to a switch that meets its invariant.
 */
module StpSwitch {
  import opened Common

  /** Port ids are the port priority 128 in the high byte and a 1-based index in the low byte. */
  function PortId(i: nat): nat {
    0x8000 + i + 1
  }

  const PATH_COST: nat := 1

  /** What a port stores and what a configuration message carries. */
  datatype Config = Config(root: nat, cost: nat, sw: nat, port: nat)

  /** `a` has strictly higher priority than `b`; lower numbers win. */
  predicate Better(a: Config, b: Config) {
    if a.root != b.root then a.root < b.root
    else if a.cost != b.cost then a.cost < b.cost
    else if a.sw != b.sw then a.sw < b.sw
    else a.port < b.port
  }

  datatype Role = RootRole | DesignatedRole | AlternateRole

  /** A configuration message leaving through port `port`. */
  datatype Sent = Sent(port: nat, config: Config)

  datatype Switch = Switch(
    id: nat, root: nat, cost: nat, rootPort: Option<nat>,
    ports: seq<Config>, helloActive: bool)
  {
    predicate IsRoot() {
      root == id
    }

    predicate Designated(i: nat)
      requires i < |ports|
    {
      ports[i].sw == id && ports[i].port == PortId(i)
    }

    /** The message this switch sends on port `i`, and the vector of a designated port. */
    function Offer(i: nat): Config {
      Config(root, cost, id, PortId(i))
    }

    function PortRole(i: nat): Role
      requires i < |ports|
    {
      if rootPort == Some(i) then RootRole
      else if Designated(i) then DesignatedRole
      else AlternateRole
    }

    /** The first best of the non-designated ports among the first `n`. */
    function BestPort(n: nat): (best: Option<nat>)
      requires n <= |ports|
      ensures best.Some? ==> best.value < n && !Designated(best.value)
      ensures best.None? ==> forall i :: 0 <= i < n ==> Designated(i)
      ensures best.Some? ==> forall i :: 0 <= i < n && !Designated(i) ==> !Better(ports[i], ports[best.value])
    {
      if n == 0 then None
      else
        var b := BestPort(n - 1);
        if !Designated(n - 1) && (b.None? || Better(ports[n - 1], ports[b.value])) then Some(n - 1) else b
    }

    /** update_stp_status */
    function UpdateStatus(): Switch {
      match BestPort(|ports|)
      case None => this.(rootPort := None, root := id, cost := 0)
      case Some(k) => this.(rootPort := Some(k), root := ports[k].root, cost := ports[k].cost + PATH_COST)
    }

    /** port_stp_all_priority_cmp: no non-designated port beats port `i`. */
    predicate NoneBetter(i: nat)
      requires i < |ports|
    {
      forall j: nat :: j < |ports| && !Designated(j) ==> !Better(ports[j], ports[i])
    }

    /** One iteration of update_port_config. */
    function UpdatePort(i: nat): (s: Switch)
      requires i < |ports|
      ensures |s.ports| == |ports|
    {
      if Designated(i) then
        this.(ports := ports[i := ports[i].(root := root, cost := cost)])
      else if rootPort != Some(i) && NoneBetter(i) then
        this.(ports := ports[i := ports[i].(sw := id, port := PortId(i))])
      else
        this
    }

    /** update_port_config, after its first `n` iterations; each one sees the writes of the earlier ones. */
    function UpdatePorts(n: nat): (s: Switch)
      requires n <= |ports|
      ensures |s.ports| == |ports|
    {
      if n == 0 then this else UpdatePorts(n - 1).UpdatePort(n - 1)
    }

    /** stp_port_send_config together with the drop of frames leaving an ALTERNATE port. */
    function SendOn(i: nat): seq<Sent>
      requires i < |ports|
    {
      if (!IsRoot() && rootPort.None?) || PortRole(i) == AlternateRole then []
      else [Sent(i, Offer(i))]
    }

    /** stp_send_config over the first `n` ports. */
    function SendAll(n: nat): seq<Sent>
      requires n <= |ports|
    {
      if n == 0 then []
      else SendAll(n - 1) + if Designated(n - 1) then SendOn(n - 1) else []
    }

    /** The state after port `i` has taken over the better configuration `c`. */
    function Accept(i: nat, c: Config): (s: Switch)
      requires i < |ports|
      ensures |s.ports| == |ports|
    {
      var s := this.(ports := ports[i := c]).UpdateStatus().UpdatePorts(|ports|);
      s.(helloActive := s.helloActive && s.IsRoot())
    }

    /** stp_handle_config_packet */
    function Handle(i: nat, c: Config): (s: Switch)
      requires i < |ports|
      ensures |s.ports| == |ports|
    {
      if Better(c, ports[i]) then Accept(i, c) else this
    }

    function HandleSends(i: nat, c: Config): seq<Sent>
      requires i < |ports|
    {
      if Better(c, ports[i]) then Accept(i, c).SendAll(|ports|) else SendOn(i)
    }
  }

  /** stp_init */
  function InitSwitch(id: nat, nports: nat): Switch {
    Switch(id, id, 0, None, seq(nports, i requires 0 <= i => Config(id, 0, id, PortId(i))), true)
  }

  /** The invariant one switch keeps whatever arrives, given who can talk to its ports. */
  ghost predicate LocalInv(s: Switch) {
    && (forall i: nat :: i < |s.ports| && s.Designated(i) ==> s.ports[i] == s.Offer(i))
    && (forall i: nat, j: nat :: i < j < |s.ports| && !s.Designated(i) && !s.Designated(j) ==>
          s.ports[i] != s.ports[j])
    && (forall i: nat :: i < |s.ports| && !s.Designated(i) ==> s.ports[i].sw != s.id)
    && s.rootPort == s.BestPort(|s.ports|)
    && s.root <= s.id
    && (s.rootPort.None? <==> s.root == s.id)
    && (s.rootPort.None? <==> s.cost == 0)
    && (s.rootPort.Some? ==>
          && s.root == s.ports[s.rootPort.value].root
          && s.cost == s.ports[s.rootPort.value].cost + PATH_COST)
    && (s.helloActive <==> s.root == s.id)
  }

  lemma InitLocalInv(id: nat, nports: nat)
    ensures LocalInv(InitSwitch(id, nports))
  {
    var s := InitSwitch(id, nports);
    assert forall i: nat :: i < nports ==> s.Designated(i);
    assert s.BestPort(nports).None?;
  }

  lemma BetterTotal(a: Config, b: Config)
    ensures a != b ==> Better(a, b) || Better(b, a)
  {
  }

  lemma NotBetterTransitive(a: Config, b: Config, c: Config)
    requires !Better(a, b) && !Better(b, c)
    ensures !Better(a, c)
  {
  }

  /** What update_port_config does when every non-designated port but the root port is
      strictly worse than the root port: it re-announces on designated ports and promotes nothing. */
  ghost predicate Refreshed(before: Switch, after: Switch, n: nat)
    requires n <= |before.ports| == |after.ports|
  {
    && after == before.(ports := after.ports)
    && forall i: nat :: i < |before.ports| ==>
         after.ports[i] == if i < n && before.Designated(i) then before.Offer(i) else before.ports[i]
  }

  lemma {:induction false} NoPromotion(s: Switch, n: nat)
    requires n <= |s.ports|
    requires s.rootPort.Some? ==> s.rootPort.value < |s.ports| && !s.Designated(s.rootPort.value)
    requires forall i: nat :: i < |s.ports| && !s.Designated(i) && s.rootPort != Some(i) ==>
               s.rootPort.Some? && Better(s.ports[s.rootPort.value], s.ports[i])
    ensures Refreshed(s, s.UpdatePorts(n), n)
  {
    if n > 0 {
      NoPromotion(s, n - 1);
      var t := s.UpdatePorts(n - 1);
      var i := n - 1;
      assert t.ports[i] == s.ports[i];
      if !s.Designated(i) && s.rootPort != Some(i) {
        var k := s.rootPort.value;
        assert !t.Designated(k) && Better(t.ports[k], t.ports[i]);
      }
    }
  }

  /** Acceptance keeps the invariant, and never makes the switch's own offer or any port vector worse. */
  ghost predicate Improves(s: Switch, t: Switch) {
    && t.id == s.id && |t.ports| == |s.ports|
    && !LexLess(s.root, s.cost, t.root, t.cost)
    && forall j: nat :: j < |s.ports| ==> !Better(s.ports[j], t.ports[j])
  }

  /** A message that port `i` may accept: from a foreign port, unlike what any other port holds,
      and with cost 0 only from the switch it names as root. */
  ghost predicate Acceptable(s: Switch, i: nat, c: Config)
    requires i < |s.ports|
  {
    && c.sw != s.id
    && (c.cost == 0 ==> c.root == c.sw)
    && (forall j: nat :: j < |s.ports| && j != i && !s.Designated(j) ==> s.ports[j] != c)
    && Better(c, s.ports[i])
  }

  /** The closed form of what acceptance does: the port takes `c`, the best non-designated port
      becomes the root port, designated ports announce the new values, the rest is untouched. */
  ghost predicate AcceptEffect(s: Switch, i: nat, c: Config, t: Switch)
    requires i < |s.ports|
  {
    var s1 := s.(ports := s.ports[i := c]);
    var best := s1.BestPort(|s.ports|);
    && best.Some?
    && t.id == s.id && |t.ports| == |s.ports|
    && t.rootPort == best
    && t.root == s1.ports[best.value].root
    && t.cost == s1.ports[best.value].cost + PATH_COST
    && t.helloActive == (s.helloActive && t.IsRoot())
    && t.ports[i] == c
    && forall j: nat :: j < |s.ports| && j != i ==>
         t.ports[j] == if s.Designated(j) then t.Offer(j) else s.ports[j]
  }

  lemma AcceptHasEffect(s: Switch, i: nat, c: Config)
    requires LocalInv(s) && i < |s.ports| && Acceptable(s, i, c)
    ensures AcceptEffect(s, i, c, s.Accept(i, c))
  {
    var n := |s.ports|;
    var s1 := s.(ports := s.ports[i := c]);
    assert !s1.Designated(i);
    var s2 := s1.UpdateStatus();
    var k := s1.BestPort(n).value;
    forall j: nat | j < n && !s2.Designated(j) && j != k
      ensures Better(s2.ports[k], s2.ports[j])
    {
      assert !s1.Designated(j) && !s1.Designated(k);
      assert s1.ports[j] != s1.ports[k];
      BetterTotal(s2.ports[k], s2.ports[j]);
    }
    NoPromotion(s2, n);
  }

  lemma AcceptKeepsRoles(s: Switch, i: nat, c: Config, t: Switch)
    requires LocalInv(s) && i < |s.ports| && Acceptable(s, i, c) && AcceptEffect(s, i, c, t)
    ensures !t.Designated(i)
    ensures forall j: nat :: j < |s.ports| && j != i ==> t.Designated(j) == s.Designated(j)
    ensures t.rootPort == t.BestPort(|t.ports|)
  {
    var s1 := s.(ports := s.ports[i := c]);
    assert forall j: nat :: j < |s.ports| ==> s1.Designated(j) == t.Designated(j);
    BestIsUnchanged(s1, t, |s.ports|);
  }

  lemma AcceptKeeps(s: Switch, i: nat, c: Config)
    requires LocalInv(s) && i < |s.ports| && Acceptable(s, i, c)
    ensures LocalInv(s.Accept(i, c)) && Improves(s, s.Accept(i, c))
    ensures AcceptEffect(s, i, c, s.Accept(i, c)) && !s.Accept(i, c).Designated(i)
    ensures forall j: nat :: j < |s.ports| && j != i ==> s.Accept(i, c).Designated(j) == s.Designated(j)
  {
    var t := s.Accept(i, c);
    AcceptHasEffect(s, i, c);
    AcceptKeepsRoles(s, i, c, t);
    RootFalls(s, i, c);
  }

  /** The scan depends only on the ports that are not designated. */
  lemma {:induction false} BestIsUnchanged(s: Switch, t: Switch, n: nat)
    requires s.id == t.id && n <= |s.ports| == |t.ports|
    requires forall j: nat :: j < n ==>
               s.Designated(j) == t.Designated(j) && (!s.Designated(j) ==> s.ports[j] == t.ports[j])
    ensures s.BestPort(n) == t.BestPort(n)
  {
    if n > 0 {
      BestIsUnchanged(s, t, n - 1);
    }
  }

  /** After acceptance the new root port names a better root than the switch itself,
      and leads there no worse than before. */
  lemma RootFalls(s: Switch, i: nat, c: Config)
    requires LocalInv(s) && i < |s.ports| && Acceptable(s, i, c)
    ensures var s1 := s.(ports := s.ports[i := c]);
            var best := s1.BestPort(|s.ports|);
            && best.Some?
            && s1.ports[best.value].root < s.id
            && !LexLess(s.root, s.cost, s1.ports[best.value].root, s1.ports[best.value].cost + PATH_COST)
  {
    var s1 := s.(ports := s.ports[i := c]);
    assert !s1.Designated(i);
    var best := s1.ports[s1.BestPort(|s.ports|).value];
    assert !Better(c, best);
    if s.rootPort.None? {
      assert s.Designated(i) && s.ports[i] == s.Offer(i);
    } else {
      var k := s.rootPort.value;
      assert !s1.Designated(k);
      assert !Better(s1.ports[k], best);
      assert k == i || s1.ports[k] == s.ports[k];
    }
  }
}
