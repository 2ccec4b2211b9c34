/**
 Network address translation (Lab10/12-nat/nat.c): the port pool, the mapping buckets, translation
 in both directions and the sweep, as functions on the state of the table.
 */
module Nat {
  import opened Common

  const PORT_MIN: nat := 12345
  const PORT_MAX: nat := 23456
  const ALL_PORTS: nat := 65536
  const BUCKETS: nat := 256
  const ESTABLISHED_TIMEOUT: nat := 60
  const TCP_FIN: nat := 0x01
  const TCP_ACK: nat := 0x10

  datatype Packet = Packet(saddr: nat, sport: nat, daddr: nat, dport: nat, flags: nat, seqNum: nat, ackNum: nat)

  /** nat_connection */
  datatype Flow = Flow(internalFin: bool, externalFin: bool, internalSeqEnd: nat, externalSeqEnd: nat,
                       internalAck: nat, externalAck: nat)

  const NEW_FLOW := Flow(false, false, 0, 0, 0, 0)

  /** nat_mapping */
  datatype Mapping = Mapping(intIp: nat, intPort: nat, extIp: nat, extPort: nat, time: int, flow: Flow)

  datatype Rule = Rule(extIp: nat, extPort: nat, intIp: nat, intPort: nat)

  /** The address of the external interface, the DNAT rules, and any hash of a remote endpoint. */
  datatype Config = Config(extIp: nat, rules: seq<Rule>, hash: (nat, nat) -> nat) {
    function Index(ip: nat, port: nat): (i: nat)
      ensures i < BUCKETS
    {
      hash(ip, port) % BUCKETS
    }
  }

  datatype Table = Table(used: seq<bool>, buckets: seq<seq<Mapping>>) {
    predicate Valid() {
      |used| == ALL_PORTS && |buckets| == BUCKETS
    }
  }

  predicate Pool(p: nat) {
    PORT_MIN <= p < PORT_MAX
  }

  function Max(x: nat, y: nat): nat {
    if x > y then x else y
  }

  // ---------------------------------------------------------------- searches

  /** The first free port of the pool from `i` on, 0 without one. */
  function FirstFree(used: seq<bool>, i: nat): (p: nat)
    requires |used| == ALL_PORTS && PORT_MIN <= i <= PORT_MAX
    ensures p == 0 ==> forall k :: i <= k < PORT_MAX ==> used[k]
    ensures p != 0 ==> i <= p < PORT_MAX && !used[p] && forall k :: i <= k < p ==> used[k]
    decreases PORT_MAX - i
  {
    if i == PORT_MAX then 0
    else if !used[i] then i
    else FirstFree(used, i + 1)
  }

  predicate FromInside(m: Mapping, ip: nat, port: nat) {
    m.intIp == ip && m.intPort == port
  }

  predicate ToOutside(m: Mapping, ip: nat, port: nat) {
    m.extIp == ip && m.extPort == port
  }

  /** The first mapping of an internal endpoint from `j` on, |b| without one. */
  function FindInternal(b: seq<Mapping>, ip: nat, port: nat, j: nat): (k: nat)
    requires j <= |b|
    ensures j <= k <= |b|
    ensures k < |b| ==> FromInside(b[k], ip, port)
    ensures forall i :: j <= i < k ==> !FromInside(b[i], ip, port)
    decreases |b| - j
  {
    if j == |b| || FromInside(b[j], ip, port) then j else FindInternal(b, ip, port, j + 1)
  }

  function FindExternal(b: seq<Mapping>, ip: nat, port: nat, j: nat): (k: nat)
    requires j <= |b|
    ensures j <= k <= |b|
    ensures k < |b| ==> ToOutside(b[k], ip, port)
    ensures forall i :: j <= i < k ==> !ToOutside(b[i], ip, port)
    decreases |b| - j
  {
    if j == |b| || ToOutside(b[j], ip, port) then j else FindExternal(b, ip, port, j + 1)
  }

  predicate Matches(r: Rule, ip: nat, port: nat) {
    r.extIp == ip && r.extPort == port
  }

  function FindRule(rules: seq<Rule>, ip: nat, port: nat, j: nat): (k: nat)
    requires j <= |rules|
    ensures j <= k <= |rules|
    ensures k < |rules| ==> Matches(rules[k], ip, port)
    ensures forall i :: j <= i < k ==> !Matches(rules[i], ip, port)
    decreases |rules| - j
  {
    if j == |rules| || Matches(rules[j], ip, port) then j else FindRule(rules, ip, port, j + 1)
  }

  // ---------------------------------------------------------------- one packet, one sweep

  function SeenFromOutside(f: Flow, pkt: Packet): Flow {
    f.(externalFin := pkt.flags == TCP_FIN,
       externalSeqEnd := Max(pkt.seqNum, f.externalSeqEnd),
       externalAck := if pkt.flags == TCP_ACK then Max(pkt.ackNum, f.externalAck) else f.externalAck)
  }

  function SeenFromInside(f: Flow, pkt: Packet): Flow {
    f.(internalFin := pkt.flags == TCP_FIN || f.internalFin,
       internalSeqEnd := Max(pkt.seqNum, f.internalSeqEnd),
       internalAck := if pkt.flags == TCP_ACK then Max(pkt.ackNum, f.internalAck) else f.internalAck)
  }

  /** do_translation for DIR_IN; a packet without mapping and rule is not sent on. */
  function TranslateIn(c: Config, t: Table, pkt: Packet, now: int): (r: (Table, Option<Packet>))
    requires t.Valid()
    ensures r.0.Valid()
  {
    var i := c.Index(pkt.saddr, pkt.sport);
    var b := t.buckets[i];
    var j := FindExternal(b, pkt.daddr, pkt.dport, 0);
    if j < |b| then
      var m := b[j].(flow := SeenFromOutside(b[j].flow, pkt));
      (t.(buckets := t.buckets[i := b[j := m]]), Some(pkt.(daddr := m.intIp, dport := m.intPort)))
    else
      var k := FindRule(c.rules, pkt.daddr, pkt.dport, 0);
      if k == |c.rules| then (t, None)
      else
        var rule := c.rules[k];
        var m := Mapping(rule.intIp, rule.intPort, rule.extIp, rule.extPort, now, SeenFromOutside(NEW_FLOW, pkt));
        (t.(buckets := t.buckets[i := b + [m]]), Some(pkt.(daddr := m.intIp, dport := m.intPort)))
  }

  /** The pool after alloc_port. */
  function Allocated(used: seq<bool>): (a: seq<bool>)
    requires |used| == ALL_PORTS
    ensures |a| == ALL_PORTS
  {
    var p := FirstFree(used, PORT_MIN);
    if p == 0 then used else used[p := true]
  }

  /** do_translation for DIR_OUT. */
  function TranslateOut(c: Config, t: Table, pkt: Packet, now: int): (r: (Table, Packet))
    requires t.Valid()
    ensures r.0.Valid()
  {
    var i := c.Index(pkt.daddr, pkt.dport);
    var b := t.buckets[i];
    var j := FindInternal(b, pkt.saddr, pkt.sport, 0);
    if j < |b| then
      var m := b[j].(flow := SeenFromInside(b[j].flow, pkt));
      (t.(buckets := t.buckets[i := b[j := m]]), pkt.(saddr := m.extIp, sport := m.extPort))
    else
      var m := Mapping(pkt.saddr, pkt.sport, c.extIp, FirstFree(t.used, PORT_MIN), now, SeenFromInside(NEW_FLOW, pkt));
      (Table(Allocated(t.used), t.buckets[i := b + [m]]), pkt.(saddr := m.extIp, sport := m.extPort))
  }

  /** is_flow_finished */
  predicate Finished(f: Flow) {
    f.internalFin && f.externalFin && f.internalAck >= f.externalSeqEnd && f.externalAck >= f.internalSeqEnd
  }

  predicate Expired(m: Mapping, now: int) {
    now - m.time > ESTABLISHED_TIMEOUT || Finished(m.flow)
  }

  function Kept(b: seq<Mapping>, now: int): seq<Mapping> {
    if b == [] then []
    else if Expired(b[|b| - 1], now) then Kept(b[..|b| - 1], now)
    else Kept(b[..|b| - 1], now) + [b[|b| - 1]]
  }

  /** The sweep has met an expired mapping with port `p` among the first `n` of `b`. */
  predicate FreedIn(b: seq<Mapping>, n: nat, now: int, p: nat)
    requires n <= |b|
  {
    exists j :: 0 <= j < n && Expired(b[j], now) && b[j].extPort == p
  }

  predicate Freed(buckets: seq<seq<Mapping>>, n: nat, now: int, p: nat)
    requires n <= |buckets|
  {
    exists i :: 0 <= i < n && FreedIn(buckets[i], |buckets[i]|, now, p)
  }

  /** The body of nat_timeout. */
  function Sweep(t: Table, now: int): (r: Table)
    requires t.Valid()
    ensures r.Valid()
  {
    Table(seq(ALL_PORTS, p requires 0 <= p < ALL_PORTS => t.used[p] && !Freed(t.buckets, BUCKETS, now, p)),
          seq(BUCKETS, i requires 0 <= i < BUCKETS => Kept(t.buckets[i], now)))
  }
}
