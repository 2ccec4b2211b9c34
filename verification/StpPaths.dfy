/**
 Every distance a switch, a port or a message claims is the length of a simple
 path, so costs stay below the number of switches and following root ports
 never returns.
 */
module StpPaths {
  import opened Common
  import opened StpSwitch
  import opened StpNetwork

  ghost predicate Adjacent(topo: Topology, x: nat, y: nat) {
    exists e :: e in topo.peer && e.sw == x && topo.peer[e].sw == y
  }

  /** `xs` is a simple path of `c` links from `x` to the switch named `r`, along which every
      switch already knows of `r` at no more than its remaining distance. */
  ghost predicate IsPath(topo: Topology, net: Net, xs: seq<nat>, x: nat, r: nat, c: nat)
    requires Shape(topo, net)
  {
    && |xs| == c + 1 && xs[0] == x
    && (forall k :: 0 <= k <= c ==> xs[k] < |topo.ids|)
    && Distinct(xs)
    && topo.ids[xs[c]] == r
    && (forall k :: 0 <= k < c ==> Adjacent(topo, xs[k], xs[k + 1]))
    && forall k :: 0 <= k <= c ==> !LexLess(r, c - k, net.sws[xs[k]].root, net.sws[xs[k]].cost)
  }

  ghost predicate HasPath(topo: Topology, net: Net, x: nat, r: nat, c: nat)
    requires Shape(topo, net)
  {
    exists xs :: IsPath(topo, net, xs, x, r, c)
  }

  ghost predicate SwitchPaths(topo: Topology, net: Net)
    requires Shape(topo, net)
  {
    forall x: nat :: x < |net.sws| ==> HasPath(topo, net, x, net.sws[x].root, net.sws[x].cost)
  }

  ghost predicate StoredPaths(topo: Topology, net: Net)
    requires Shape(topo, net)
  {
    forall e :: HasEnd(net, e) && !DesignatedAt(net, e) && e in topo.peer ==>
      HasPath(topo, net, topo.peer[e].sw, At(net, e).root, At(net, e).cost)
  }

  ghost predicate FlyingPaths(topo: Topology, net: Net)
    requires Shape(topo, net)
  {
    forall p :: p in net.flying && p.dst in topo.peer ==>
      HasPath(topo, net, topo.peer[p.dst].sw, p.config.root, p.config.cost)
  }

  ghost predicate PathInv(topo: Topology, net: Net)
    requires Shape(topo, net)
  {
    SwitchPaths(topo, net) && StoredPaths(topo, net) && FlyingPaths(topo, net)
  }

  /** Paths stay valid while no switch's own values get worse. */
  lemma PathKept(topo: Topology, net: Net, net': Net, x: nat, r: nat, c: nat)
    requires Shape(topo, net) && Shape(topo, net') && NoneWorse(net, net')
    requires HasPath(topo, net, x, r, c)
    ensures HasPath(topo, net', x, r, c)
  {
    var xs :| IsPath(topo, net, xs, x, r, c);
    assert IsPath(topo, net', xs, x, r, c);
  }

  /** Prefixing a switch to a path of a neighbour that it is not on gives a path of the switch. */
  lemma PrefixPath(topo: Topology, net: Net, xs: seq<nat>, x: nat, y: nat, r: nat, c: nat)
    requires Shape(topo, net) && IsPath(topo, net, xs, y, r, c)
    requires x < |topo.ids| && Adjacent(topo, x, y)
    requires net.sws[x].root == r && net.sws[x].cost == c + 1
    ensures IsPath(topo, net, [x] + xs, x, r, c + 1)
  {
    var ys := [x] + xs;
    forall k | 0 < k <= c + 1
      ensures ys[k] == xs[k - 1] && ys[k] != x
      ensures !LexLess(r, c + 1 - k, net.sws[ys[k]].root, net.sws[ys[k]].cost)
    {
      assert !LexLess(r, c - (k - 1), net.sws[xs[k - 1]].root, net.sws[xs[k - 1]].cost);
    }
    assert Distinct(ys);
    forall k | 0 <= k < c + 1 ensures Adjacent(topo, ys[k], ys[k + 1]) {
      assert k > 0 ==> Adjacent(topo, xs[k - 1], xs[k - 1 + 1]);
    }
  }

  lemma ExtendPath(topo: Topology, net: Net, e: End)
    requires WellFormed(topo) && Shape(topo, net) && HasEnd(net, e) && e in topo.peer
    requires HasPath(topo, net, topo.peer[e].sw, At(net, e).root, At(net, e).cost)
    requires net.sws[e.sw].root == At(net, e).root && net.sws[e.sw].cost == At(net, e).cost + PATH_COST
    ensures HasPath(topo, net, e.sw, net.sws[e.sw].root, net.sws[e.sw].cost)
  {
    var y, r, c := topo.peer[e].sw, At(net, e).root, At(net, e).cost;
    var xs :| IsPath(topo, net, xs, y, r, c);
    assert Adjacent(topo, e.sw, y);
    PrefixPath(topo, net, xs, e.sw, y, r, c);
  }

  lemma StoredPathsKept(topo: Topology, net: Net, dst: End, c: Config, net': Net)
    requires Shape(topo, net) && Shape(topo, net') && NoneWorse(net, net')
    requires HasEnd(net, dst) && AcceptStep(net, dst, c, net') && StoredPaths(topo, net)
    requires dst in topo.peer ==> HasPath(topo, net, topo.peer[dst].sw, c.root, c.cost)
    ensures StoredPaths(topo, net')
  {
    forall e | HasEnd(net', e) && !DesignatedAt(net', e) && e in topo.peer
      ensures HasPath(topo, net', topo.peer[e].sw, At(net', e).root, At(net', e).cost)
    {
      assert HasEnd(net, e);
      PathKept(topo, net, net', topo.peer[e].sw, At(net', e).root, At(net', e).cost);
    }
  }

  lemma FlyingPathsKept(topo: Topology, net: Net, net': Net)
    requires Shape(topo, net) && Shape(topo, net') && NoneWorse(net, net')
    requires net'.flying == net.flying && FlyingPaths(topo, net)
    ensures FlyingPaths(topo, net')
  {
    forall q | q in net'.flying && q.dst in topo.peer
      ensures HasPath(topo, net', topo.peer[q.dst].sw, q.config.root, q.config.cost)
    {
      PathKept(topo, net, net', topo.peer[q.dst].sw, q.config.root, q.config.cost);
    }
  }

  lemma SwitchPathsKept(topo: Topology, net: Net, net': Net, x: nat)
    requires Shape(topo, net) && Shape(topo, net') && NoneWorse(net, net')
    requires forall y: nat :: y < |net.sws| && y != x ==> net'.sws[y] == net.sws[y]
    requires x < |net'.sws| && HasPath(topo, net', x, net'.sws[x].root, net'.sws[x].cost)
    requires SwitchPaths(topo, net)
    ensures SwitchPaths(topo, net')
  {
    forall y: nat | y < |net'.sws| ensures HasPath(topo, net', y, net'.sws[y].root, net'.sws[y].cost) {
      if y != x {
        PathKept(topo, net, net', y, net'.sws[y].root, net'.sws[y].cost);
      }
    }
  }

  lemma AcceptedPaths(topo: Topology, net: Net, p: Packet)
    requires WellFormed(topo) && Accepting(topo, net, p) && PathInv(topo, net)
    ensures Shape(topo, Accepted(net, p.dst, p.config)) && PathInv(topo, Accepted(net, p.dst, p.config))
  {
    var net' := Accepted(net, p.dst, p.config);
    AcceptedInv(topo, net, p);
    StoredPathsKept(topo, net, p.dst, p.config, net');
    FlyingPathsKept(topo, net, net');
    AcceptorPath(topo, net', p.dst.sw);
    SwitchPathsKept(topo, net, net', p.dst.sw);
  }

  lemma AcceptorPath(topo: Topology, net: Net, x: nat)
    requires WellFormed(topo) && Inv(topo, net) && StoredPaths(topo, net)
    requires x < |net.sws| && net.sws[x].rootPort.Some?
    ensures HasPath(topo, net, x, net.sws[x].root, net.sws[x].cost)
  {
    var e := End(x, net.sws[x].rootPort.value);
    assert LocalInv(net.sws[x]);
    assert HasEnd(net, e) && !DesignatedAt(net, e);
    ExtendPath(topo, net, e);
  }

  lemma SendKeepsPaths(topo: Topology, net: Net, x: nat, ps: set<Packet>)
    requires WellFormed(topo) && Shape(topo, net) && PathInv(topo, net) && x < |net.sws|
    requires forall p :: p in ps ==> SentNow(topo, net, x, p)
    ensures PathInv(topo, Net(net.sws, net.flying + ps))
  {
    var net' := Net(net.sws, net.flying + ps);
    forall y: nat | y < |net'.sws| ensures HasPath(topo, net', y, net'.sws[y].root, net'.sws[y].cost) {
      PathKept(topo, net, net', y, net'.sws[y].root, net'.sws[y].cost);
    }
    forall e | HasEnd(net', e) && !DesignatedAt(net', e) && e in topo.peer
      ensures HasPath(topo, net', topo.peer[e].sw, At(net', e).root, At(net', e).cost)
    {
      assert HasEnd(net, e);
      PathKept(topo, net, net', topo.peer[e].sw, At(net, e).root, At(net, e).cost);
    }
    forall p | p in net'.flying && p.dst in topo.peer
      ensures HasPath(topo, net', topo.peer[p.dst].sw, p.config.root, p.config.cost)
    {
      PathKept(topo, net, net', topo.peer[p.dst].sw, p.config.root, p.config.cost);
    }
  }

  lemma NextPaths(topo: Topology, net: Net, ev: Event)
    requires WellFormed(topo) && Inv(topo, net) && PathInv(topo, net) && Enabled(net, ev)
    ensures Inv(topo, Next(topo, net, ev)) && PathInv(topo, Next(topo, net, ev))
  {
    NextInv(topo, net, ev);
    NextDecomposed(topo, net, ev);
    if Accepts(net, ev) {
      AcceptedPaths(topo, net, ev.packet);
    }
    SendKeepsPaths(topo, Updated(net, ev), Actor(ev), Frames(topo, net, ev));
  }

  lemma InitPaths(topo: Topology)
    requires WellFormed(topo)
    ensures Shape(topo, Init(topo)) && PathInv(topo, Init(topo))
  {
    var net := Init(topo);
    forall x: nat | x < |net.sws| ensures HasPath(topo, net, x, net.sws[x].root, net.sws[x].cost) {
      assert IsPath(topo, net, [x], x, topo.ids[x], 0);
    }
    assert forall e :: HasEnd(net, e) ==> DesignatedAt(net, e);
  }

  lemma {:induction false} ExecPaths(topo: Topology, evs: seq<Event>)
    requires WellFormed(topo) && Exec(topo, evs).Some?
    ensures Inv(topo, Exec(topo, evs).value) && PathInv(topo, Exec(topo, evs).value)
  {
    if evs == [] {
      InitInv(topo);
      InitPaths(topo);
    } else {
      ExecPaths(topo, evs[..|evs| - 1]);
      NextPaths(topo, Exec(topo, evs[..|evs| - 1]).value, evs[|evs| - 1]);
    }
  }

  lemma ReachablePaths(topo: Topology, net: Net)
    requires WellFormed(topo) && Reachable(topo, net)
    ensures Inv(topo, net) && PathInv(topo, net)
  {
    var evs :| Exec(topo, evs) == Some(net);
    ExecPaths(topo, evs);
  }

  // ---------------------------------------------------------------- consequences

  lemma PathBounds(topo: Topology, net: Net, x: nat, r: nat, c: nat)
    requires Shape(topo, net) && HasPath(topo, net, x, r, c)
    ensures c < |topo.ids| && r in topo.ids
  {
    var xs :| IsPath(topo, net, xs, x, r, c);
    Pigeonhole(xs, |topo.ids|);
  }

  /** Every root named anywhere is a real switch and every distance is below the number of
      switches: nothing overflows and no switch invents a root. */
  lemma RootsAreReal(topo: Topology, net: Net)
    requires WellFormed(topo) && Reachable(topo, net)
    ensures Shape(topo, net)
    ensures forall x: nat :: x < |net.sws| ==> net.sws[x].root in topo.ids && net.sws[x].cost < |topo.ids|
    ensures forall e :: HasEnd(net, e) ==> At(net, e).root in topo.ids && At(net, e).cost < |topo.ids|
    ensures forall p :: p in net.flying ==> p.config.root in topo.ids && p.config.cost < |topo.ids|
  {
    ReachablePaths(topo, net);
    forall x: nat | x < |net.sws| ensures net.sws[x].root in topo.ids && net.sws[x].cost < |topo.ids| {
      PathBounds(topo, net, x, net.sws[x].root, net.sws[x].cost);
    }
    forall e | HasEnd(net, e) ensures At(net, e).root in topo.ids && At(net, e).cost < |topo.ids| {
      if DesignatedAt(net, e) {
        assert LocalInv(net.sws[e.sw]);
      } else {
        PathBounds(topo, net, topo.peer[e].sw, At(net, e).root, At(net, e).cost);
      }
    }
    forall p | p in net.flying ensures p.config.root in topo.ids && p.config.cost < |topo.ids| {
      PathBounds(topo, net, topo.peer[p.dst].sw, p.config.root, p.config.cost);
    }
  }

  /** The switch with the least id stays root with all its ports designated, whatever happens. */
  lemma LeastSwitchStaysRoot(topo: Topology, net: Net, x: nat)
    requires WellFormed(topo) && Reachable(topo, net)
    requires x < |topo.ids| && forall y :: 0 <= y < |topo.ids| ==> topo.ids[x] <= topo.ids[y]
    ensures Shape(topo, net) && net.sws[x].IsRoot() && net.sws[x].helloActive
    ensures forall i: nat :: i < |net.sws[x].ports| ==> net.sws[x].PortRole(i) == DesignatedRole
  {
    ReachableInv(topo, net);
    RootsAreReal(topo, net);
    assert LocalInv(net.sws[x]);
  }

  /** The switch behind the root port of `x`. */
  function Parent(topo: Topology, net: Net, x: nat): Option<nat> {
    if x < |net.sws| && net.sws[x].rootPort.Some? && End(x, net.sws[x].rootPort.value) in topo.peer
    then Some(topo.peer[End(x, net.sws[x].rootPort.value)].sw)
    else None
  }

  /** The switch `n` root-port hops away from `x`. */
  function Ancestor(topo: Topology, net: Net, x: nat, n: nat): Option<nat> {
    if n == 0 then Some(x)
    else match Ancestor(topo, net, x, n - 1)
      case None => None
      case Some(y) => Parent(topo, net, y)
  }

  /** (designated_root, root_path_cost) strictly falls along every root-port hop. */
  ghost predicate Descending(topo: Topology, net: Net) {
    forall x: nat :: x < |net.sws| && Parent(topo, net, x).Some? ==>
      var y := Parent(topo, net, x).value;
      y < |net.sws| && LexLess(net.sws[y].root, net.sws[y].cost, net.sws[x].root, net.sws[x].cost)
  }

  lemma RootPortsDescend(topo: Topology, net: Net)
    requires WellFormed(topo) && Reachable(topo, net)
    ensures Descending(topo, net)
    ensures forall x: nat :: x < |net.sws| ==> (Parent(topo, net, x).None? <==> net.sws[x].IsRoot())
  {
    ReachableInv(topo, net);
    forall x: nat | x < |net.sws|
      ensures Parent(topo, net, x).None? <==> net.sws[x].IsRoot()
      ensures Parent(topo, net, x).Some? ==>
                var y := Parent(topo, net, x).value;
                y < |net.sws| && LexLess(net.sws[y].root, net.sws[y].cost, net.sws[x].root, net.sws[x].cost)
    {
      var s := net.sws[x];
      assert LocalInv(s);
      if s.rootPort.Some? {
        var e := End(x, s.rootPort.value);
        assert HasEnd(net, e) && !DesignatedAt(net, e);
      }
    }
  }

  lemma {:induction false} AncestorIsCloser(topo: Topology, net: Net, x: nat, n: nat)
    requires Descending(topo, net) && x < |net.sws|
    requires Ancestor(topo, net, x, n).Some?
    ensures var y := Ancestor(topo, net, x, n).value;
            && y < |net.sws|
            && (n > 0 ==> LexLess(net.sws[y].root, net.sws[y].cost, net.sws[x].root, net.sws[x].cost))
    ensures forall m: nat :: m < n ==> Ancestor(topo, net, x, m).Some?
  {
    if n > 0 {
      AncestorIsCloser(topo, net, x, n - 1);
    }
  }

  lemma {:induction false} AncestorsAdd(topo: Topology, net: Net, x: nat, m: nat, n: nat)
    requires Ancestor(topo, net, x, m + n).Some?
    requires Ancestor(topo, net, x, m).Some?
    ensures Ancestor(topo, net, x, m + n) == Ancestor(topo, net, Ancestor(topo, net, x, m).value, n)
  {
    if n > 0 {
      AncestorsAdd(topo, net, x, m, n - 1);
    }
  }

  lemma AncestorsDiffer(topo: Topology, net: Net, x: nat, m: nat, n: nat)
    requires Descending(topo, net) && x < |net.sws| && m < n
    requires Ancestor(topo, net, x, n).Some?
    ensures Ancestor(topo, net, x, m) != Ancestor(topo, net, x, n)
  {
    AncestorIsCloser(topo, net, x, n);
    AncestorIsCloser(topo, net, x, m);
    AncestorsAdd(topo, net, x, m, n - m);
    AncestorIsCloser(topo, net, Ancestor(topo, net, x, m).value, n - m);
  }

  /** Following root ports never visits a switch twice and stops, after fewer hops than there
      are switches, at a switch that believes itself to be the root. */
  lemma RootPortsNeverCycle(topo: Topology, net: Net, x: nat)
    requires WellFormed(topo) && Reachable(topo, net) && x < |net.sws|
    ensures forall m: nat, n: nat :: m < n && Ancestor(topo, net, x, n).Some? ==>
              Ancestor(topo, net, x, m) != Ancestor(topo, net, x, n)
    ensures exists n: nat :: n < |net.sws| && Ancestor(topo, net, x, n).Some?
              && Ancestor(topo, net, x, n).value < |net.sws|
              && net.sws[Ancestor(topo, net, x, n).value].IsRoot()
  {
    RootPortsDescend(topo, net);
    forall m: nat, n: nat | m < n && Ancestor(topo, net, x, n).Some?
      ensures Ancestor(topo, net, x, m) != Ancestor(topo, net, x, n)
    {
      AncestorsDiffer(topo, net, x, m, n);
    }
    var n := AncestorsEnd(topo, net, x, 0);
    AncestorIsCloser(topo, net, x, n);
    assert Parent(topo, net, Ancestor(topo, net, x, n).value).None?;
  }

  lemma {:induction false} AncestorsEnd(topo: Topology, net: Net, x: nat, n: nat) returns (last: nat)
    requires Descending(topo, net) && x < |net.sws| && n <= |net.sws|
    requires Ancestor(topo, net, x, n).Some?
    ensures last < |net.sws| && Ancestor(topo, net, x, last).Some? && Ancestor(topo, net, x, last + 1).None?
    decreases |net.sws| - n
  {
    AncestorIsCloser(topo, net, x, n);
    var visited := seq(n + 1, k requires 0 <= k <= n => Ancestor(topo, net, x, k).value);
    forall k | 0 <= k <= n ensures visited[k] < |net.sws| {
      AncestorIsCloser(topo, net, x, k);
    }
    forall i, j | 0 <= i < j <= n ensures visited[i] != visited[j] {
      AncestorIsCloser(topo, net, x, j);
      AncestorsDiffer(topo, net, x, i, j);
    }
    Pigeonhole(visited, |net.sws|);
    if Ancestor(topo, net, x, n + 1).Some? {
      last := AncestorsEnd(topo, net, x, n + 1);
    } else {
      last := n;
    }
  }
}
