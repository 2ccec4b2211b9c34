/** The translation table updated in place, proved to do what the functions of `Nat` say. */
module NatObject {
  import opened Common
  import opened Nat

  /** The marks after the sweep has met the first `n` mappings of `b`. */
  function Unmarked(marks: seq<bool>, b: seq<Mapping>, n: nat, now: int): (r: seq<bool>)
    requires n <= |b| && forall j :: 0 <= j < |b| ==> b[j].extPort < |marks|
    ensures |r| == |marks|
  {
    if n == 0 then marks
    else
      var before := Unmarked(marks, b, n - 1, now);
      if Expired(b[n - 1], now) then before[b[n - 1].extPort := false] else before
  }

  lemma {:induction false} UnmarkedAt(marks: seq<bool>, b: seq<Mapping>, n: nat, now: int, p: nat)
    requires n <= |b| && p < |marks| && forall j :: 0 <= j < |b| ==> b[j].extPort < |marks|
    ensures Unmarked(marks, b, n, now)[p] == (marks[p] && !FreedIn(b, n, now, p))
  {
    if n > 0 {
      UnmarkedAt(marks, b, n - 1, now, p);
      assert FreedIn(b, n, now, p) <==> FreedIn(b, n - 1, now, p) || (Expired(b[n - 1], now) && b[n - 1].extPort == p);
    }
  }

  lemma {:induction false} KeptPorts(b: seq<Mapping>, now: int)
    requires forall j :: 0 <= j < |b| ==> b[j].extPort < ALL_PORTS
    ensures forall j :: 0 <= j < |Kept(b, now)| ==> Kept(b, now)[j].extPort < ALL_PORTS
  {
    if b != [] {
      KeptPorts(b[..|b| - 1], now);
    }
  }

  /** What the sweep keeps of the first `n` mappings of `b`. */
  function KeptTo(b: seq<Mapping>, n: nat, now: int): seq<Mapping>
    requires n <= |b|
  {
    if n == 0 then []
    else if Expired(b[n - 1], now) then KeptTo(b, n - 1, now)
    else KeptTo(b, n - 1, now) + [b[n - 1]]
  }

  lemma {:induction false} KeptToIsKept(b: seq<Mapping>, n: nat, now: int)
    requires n <= |b|
    ensures KeptTo(b, n, now) == Kept(b[..n], now)
  {
    if n > 0 {
      KeptToIsKept(b, n - 1, now);
      assert b[..n][..n - 1] == b[..n - 1];
    }
  }

  /** The list when the sweep has met the first `n` mappings of `b`. */
  function Swept(b: seq<Mapping>, n: nat, now: int): seq<Mapping>
    requires n <= |b|
  {
    KeptTo(b, n, now) + b[n..]
  }

  function WithoutAt(list: seq<Mapping>, k: nat): seq<Mapping>
    requires k < |list|
  {
    list[..k] + list[k + 1..]
  }

  /** Passing or unlinking the entry under the cursor. */
  lemma SweepStep(b: seq<Mapping>, n: nat, now: int)
    requires n <= |b| && |KeptTo(b, n, now)| < |Swept(b, n, now)|
    ensures var k, list := |KeptTo(b, n, now)|, Swept(b, n, now);
            && n < |b| && list[k] == b[n]
            && Swept(b, n + 1, now) == (if Expired(b[n], now) then WithoutAt(list, k) else list)
            && |KeptTo(b, n + 1, now)| == if Expired(b[n], now) then k else k + 1
  {
    assert b[n..] == [b[n]] + b[n + 1..];
  }

  lemma SweepEnds(b: seq<Mapping>, n: nat, now: int)
    requires n <= |b| && |KeptTo(b, n, now)| >= |Swept(b, n, now)|
    ensures n == |b| && Swept(b, n, now) == Kept(b, now)
  {
    KeptToIsKept(b, |b|, now);
    assert b[..|b|] == b;
  }

  class NatTable {
    const c: Config
    const used: array<bool>
    var buckets: seq<seq<Mapping>>

    /** Ports fit the table of marks. */
    ghost predicate Valid()
      reads this, used
    {
      && used.Length == ALL_PORTS && |buckets| == BUCKETS
      && (forall i, j :: 0 <= i < BUCKETS && 0 <= j < |buckets[i]| ==> buckets[i][j].extPort < ALL_PORTS)
      && (forall k :: 0 <= k < |c.rules| ==> c.rules[k].extPort < ALL_PORTS)
    }

    ghost function State(): (t: Table)
      reads this, used
      requires Valid()
      ensures t.Valid()
    {
      Table(used[..], buckets)
    }

    /** nat_init */
    constructor (c: Config)
      requires forall k :: 0 <= k < |c.rules| ==> c.rules[k].extPort < ALL_PORTS
      ensures Valid() && fresh(used) && this.c == c
      ensures State() == Table(seq(ALL_PORTS, _ => false), seq(BUCKETS, _ => []))
    {
      this.c := c;
      used := new bool[ALL_PORTS](_ => false);
      buckets := seq(BUCKETS, _ => []);
      new;
      assert used[..] == seq(ALL_PORTS, _ => false);
    }

    /** alloc_port */
    method AllocPort() returns (port: nat)
      requires Valid()
      modifies used
      ensures Valid()
      ensures port == FirstFree(old(used[..]), PORT_MIN) && used[..] == Allocated(old(used[..]))
    {
      for i := PORT_MIN to PORT_MAX
        invariant used[..] == old(used[..])
        invariant FirstFree(used[..], PORT_MIN) == FirstFree(used[..], i)
      {
        if !used[i] {
          used[i] := true;
          return i;
        }
      }
      port := 0;
    }

    method SearchExternal(b: seq<Mapping>, ip: nat, port: nat) returns (j: nat)
      ensures j == FindExternal(b, ip, port, 0)
    {
      j := 0;
      while j < |b| && !ToOutside(b[j], ip, port)
        invariant j <= |b| && FindExternal(b, ip, port, 0) == FindExternal(b, ip, port, j)
      {
        j := j + 1;
      }
    }

    method SearchInternal(b: seq<Mapping>, ip: nat, port: nat) returns (j: nat)
      ensures j == FindInternal(b, ip, port, 0)
    {
      j := 0;
      while j < |b| && !FromInside(b[j], ip, port)
        invariant j <= |b| && FindInternal(b, ip, port, 0) == FindInternal(b, ip, port, j)
      {
        j := j + 1;
      }
    }

    method SearchRule(ip: nat, port: nat) returns (k: nat)
      ensures k == FindRule(c.rules, ip, port, 0)
    {
      k := 0;
      while k < |c.rules| && !Matches(c.rules[k], ip, port)
        invariant k <= |c.rules| && FindRule(c.rules, ip, port, 0) == FindRule(c.rules, ip, port, k)
      {
        k := k + 1;
      }
    }

    /** do_translation, DIR_IN; nothing is sent without a mapping or a rule. */
    method TranslateInbound(pkt: Packet, now: int) returns (out: Option<Packet>)
      requires Valid()
      modifies this`buckets
      ensures Valid()
      ensures (State(), out) == TranslateIn(c, old(State()), pkt, now)
    {
      ghost var t := State();
      var index := c.Index(pkt.saddr, pkt.sport);
      var j := SearchExternal(buckets[index], pkt.daddr, pkt.dport);
      if j == |buckets[index]| {
        var k := SearchRule(pkt.daddr, pkt.dport);
        if k == |c.rules| {
          return None;
        }
        var rule := c.rules[k];
        var made := Mapping(rule.intIp, rule.intPort, rule.extIp, rule.extPort, now, NEW_FLOW);
        buckets := buckets[index := buckets[index] + [made]];
      }
      var entry := buckets[index][j];
      out := Some(pkt.(daddr := entry.intIp, dport := entry.intPort));
      entry := entry.(flow := SeenFromOutside(entry.flow, pkt));
      buckets := buckets[index := buckets[index][j := entry]];
      assert buckets[index] == TranslateIn(c, t, pkt, now).0.buckets[index];
      assert buckets == TranslateIn(c, t, pkt, now).0.buckets;
    }

    /** do_translation, DIR_OUT */
    method TranslateOutbound(pkt: Packet, now: int) returns (out: Packet)
      requires Valid()
      modifies this`buckets, used
      ensures Valid()
      ensures (State(), out) == TranslateOut(c, old(State()), pkt, now)
    {
      ghost var t := State();
      var index := c.Index(pkt.daddr, pkt.dport);
      var j := SearchInternal(buckets[index], pkt.saddr, pkt.sport);
      if j == |buckets[index]| {
        var port := AllocPort();
        var made := Mapping(pkt.saddr, pkt.sport, c.extIp, port, now, NEW_FLOW);
        buckets := buckets[index := buckets[index] + [made]];
      }
      var entry := buckets[index][j];
      out := pkt.(saddr := entry.extIp, sport := entry.extPort);
      entry := entry.(flow := SeenFromInside(entry.flow, pkt));
      buckets := buckets[index := buckets[index][j := entry]];
      assert buckets[index] == TranslateOut(c, t, pkt, now).0.buckets[index];
      assert buckets == TranslateOut(c, t, pkt, now).0.buckets;
    }

    method FreePort(port: nat)
      requires port < used.Length
      modifies used
      ensures used[..] == old(used[..])[port := false]
    {
      used[port] := false;
    }

    /** One list of the sweep: expired mappings leave it and their ports become free. */
    method SweepList(b: seq<Mapping>, now: int) returns (list: seq<Mapping>)
      requires used.Length == ALL_PORTS && forall j :: 0 <= j < |b| ==> b[j].extPort < ALL_PORTS
      modifies used
      ensures list == Kept(b, now)
      ensures used[..] == Unmarked(old(used[..]), b, |b|, now)
    {
      ghost var marks := used[..];
      ghost var n: nat := 0;
      list := b;
      var k := 0;
      while k < |list|
        invariant n <= |b| && list == Swept(b, n, now) && k == |KeptTo(b, n, now)|
        invariant used[..] == Unmarked(marks, b, n, now)
        decreases |b| - n
      {
        var entry := list[k];
        SweepStep(b, n, now);
        if Expired(entry, now) {
          FreePort(entry.extPort);
          list := WithoutAt(list, k);
        } else {
          k := k + 1;
        }
        n := n + 1;
      }
      SweepEnds(b, n, now);
    }

    method SweepBucket(i: nat, now: int)
      requires Valid() && i < BUCKETS
      modifies this`buckets, used
      ensures Valid()
      ensures buckets == old(buckets)[i := Kept(old(buckets)[i], now)]
      ensures used[..] == Unmarked(old(used[..]), old(buckets)[i], |old(buckets)[i]|, now)
    {
      KeptPorts(buckets[i], now);
      var list := SweepList(buckets[i], now);
      buckets := buckets[i := list];
    }

    /** nat_timeout, one sweep */
    method SweepAll(now: int)
      requires Valid()
      modifies this`buckets, used
      ensures Valid()
      ensures State() == Sweep(old(State()), now)
    {
      for i := 0 to BUCKETS
        invariant Valid()
        invariant forall x :: 0 <= x < i ==> buckets[x] == Kept(old(buckets)[x], now)
        invariant forall x :: i <= x < BUCKETS ==> buckets[x] == old(buckets)[x]
        invariant forall p :: 0 <= p < ALL_PORTS ==> used[p] == (old(used[p]) && !Freed(old(buckets), i, now, p))
      {
        ghost var marks := used[..];
        SweepBucket(i, now);
        forall p | 0 <= p < ALL_PORTS
          ensures used[p] == (old(used[p]) && !Freed(old(buckets), i + 1, now, p))
        {
          UnmarkedAt(marks, old(buckets)[i], |old(buckets)[i]|, now, p);
          assert used[p] == used[..][p] && marks[p] == (old(used[p]) && !Freed(old(buckets), i, now, p));
        }
      }
      assert buckets == Sweep(old(State()), now).buckets;
      assert used[..] == Sweep(old(State()), now).used;
    }
  }
}
