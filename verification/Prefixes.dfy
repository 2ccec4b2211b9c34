/**
 Prefix tries as maps from node paths to ports, and the longest-prefix match
 they are meant to compute. A path is the bits from the root; nodes sit at
 every `step` bits, 1 for the binary trie and 2 for the four-way one.
 */
module Prefixes {

  type Bits = seq<bool>
  type Ports = map<Bits, int>

  /** Addresses have 32 bits, most significant first. */
  const WIDTH: nat := 32

  // ---------------------------------------------------------------- longest-prefix match

  /** The port of the longest prefix of `a` up to `k` bits that has a table entry, 0 without one. */
  function Best(table: Ports, a: Bits, k: nat): int
    requires k <= |a|
  {
    if a[..k] in table then table[a[..k]]
    else if k == 0 then 0
    else Best(table, a, k - 1)
  }

  function Lpm(table: Ports, a: Bits): int {
    Best(table, a, |a|)
  }

  /** Some entry longer than `n` and up to `k` bits matches `a`. */
  ghost predicate Longer(table: Ports, a: Bits, n: nat, k: nat)
    requires k <= |a|
  {
    exists i :: n < i <= k && a[..i] in table
  }

  lemma PrefixIs(q: Bits, a: Bits)
    requires q <= a
    ensures a[..|q|] == q
  {
  }

  lemma {:induction false} BestAfterAdd(table: Ports, q: Bits, port: int, a: Bits, k: nat)
    requires k <= |a|
    ensures Best(table[q := port], a, k) ==
            if q <= a && |q| <= k && !Longer(table, a, |q|, k) then port else Best(table, a, k)
  {
    if q <= a {
      PrefixIs(q, a);
    }
    if a[..k] != q && a[..k] !in table && k > 0 {
      BestAfterAdd(table, q, port, a, k - 1);
      assert |q| <= k - 1 ==> (Longer(table, a, |q|, k) <==> Longer(table, a, |q|, k - 1));
    }
  }

  /** Adding an entry changes the match of exactly the addresses it covers that match nothing longer. */
  lemma LpmAfterAdd(table: Ports, q: Bits, port: int, a: Bits)
    ensures Lpm(table[q := port], a) == if q <= a && !Longer(table, a, |q|, |a|) then port else Lpm(table, a)
  {
    BestAfterAdd(table, q, port, a, |a|);
  }

  lemma {:induction false} BestWithoutLonger(table: Ports, q: Bits, a: Bits, k: nat)
    requires q <= a && |q| <= k <= |a| && !Longer(table, a, |q|, k)
    ensures Best(table, a, k) == Best(table, q, |q|)
  {
    if k == |q| {
      PrefixIs(q, a);
      SamePrefixBest(table, q, a, k);
    } else {
      BestWithoutLonger(table, q, a, k - 1);
    }
  }

  lemma {:induction false} SamePrefixBest(table: Ports, q: Bits, a: Bits, k: nat)
    requires k <= |q| && k <= |a| && q[..k] == a[..k]
    ensures Best(table, a, k) == Best(table, q, k)
  {
    if k > 0 {
      assert q[..k - 1] == q[..k][..k - 1] && a[..k - 1] == a[..k][..k - 1];
      SamePrefixBest(table, q, a, k - 1);
    }
  }

  // ---------------------------------------------------------------- tries

  predicate Step(step: nat) {
    step == 1 || step == 2
  }

  /** A depth at which nodes can sit. */
  predicate Level(k: nat, step: nat) {
    step == 1 || k % 2 == 0
  }

  /** The depth of the first level below `k` bits. */
  function Below(k: nat, step: nat): (d: nat)
    requires Step(step)
    ensures k < d <= k + step && Level(d, step)
  {
    if step == 1 then k + 1 else k / 2 * 2 + 2
  }

  /** A node below the root sits on a level and has a node above it. */
  ghost predicate Hangs(m: Ports, p: Bits, step: nat) {
    p != [] ==> |p| >= step && Level(|p|, step) && p[..|p| - step] in m
  }

  /** The nodes of a trie. */
  ghost predicate Trie(m: Ports, step: nat) {
    Step(step) && [] in m && forall p {:trigger Hangs(m, p, step)} :: p in m ==> Hangs(m, p, step)
  }

  /** The depth in bits of the last node on the way to `a`, starting from depth `k`. */
  function Deepest(m: Ports, a: Bits, step: nat, k: nat): (d: nat)
    requires Step(step) && k <= |a|
    ensures k <= d <= |a|
    decreases |a| - k
  {
    if k + step <= |a| && a[..k + step] in m then Deepest(m, a, step, k + step) else k
  }

  /** The walk ends at a node, on a level, with no node one level further. */
  lemma {:induction false} DeepestEnds(m: Ports, a: Bits, step: nat, k: nat)
    requires Step(step) && k <= |a|
    ensures var d := Deepest(m, a, step, k);
            && (a[..k] in m ==> a[..d] in m)
            && (Level(k, step) ==> Level(d, step))
            && (d + step <= |a| ==> a[..d + step] !in m)
    decreases |a| - k
  {
    if k + step <= |a| && a[..k + step] in m {
      DeepestEnds(m, a, step, k + step);
    }
  }

  /** The port of the last node on the way. */
  function TrieLookup(m: Ports, a: Bits, step: nat): int
    requires Step(step) && [] in m
  {
    assert a[..0] == [];
    DeepestEnds(m, a, step, 0);
    m[a[..Deepest(m, a, step, 0)]]
  }

  lemma {:induction false} NodesAbove(m: Ports, p: Bits, step: nat, k: nat)
    requires Trie(m, step) && p in m && k <= |p| && Level(k, step)
    ensures p[..k] in m
    decreases |p|
  {
    if k < |p| {
      assert Hangs(m, p, step);
      var above := p[..|p| - step];
      NodesAbove(m, above, step, k);
      assert above[..k] == p[..k];
    } else {
      assert p[..k] == p;
    }
  }

  lemma NodesOnWay(m: Ports, a: Bits, step: nat, k: nat, d: nat)
    requires Trie(m, step) && k <= d <= |a| && Level(k, step)
    ensures a[..d] in m ==> a[..k] in m
  {
    if a[..d] in m {
      NodesAbove(m, a[..d], step, k);
      assert a[..d][..k] == a[..k];
    }
  }

  /** The walk to `a` reaches depth `d` exactly when there is a node there. */
  lemma DeepestReaches(m: Ports, a: Bits, step: nat, d: nat)
    requires Trie(m, step) && d <= |a| && Level(d, step)
    ensures d <= Deepest(m, a, step, 0) <==> a[..d] in m
  {
    DeepestEnds(m, a, step, 0);
    var e := Deepest(m, a, step, 0);
    assert a[..0] == [];
    if d <= e {
      NodesOnWay(m, a, step, d, e);
    } else {
      NodesOnWay(m, a, step, e + step, d);
    }
  }

  /** The nodes on the way to `q` down to depth `k`, each made where it is missing with the port of the node above. */
  function Extend(m: Ports, q: Bits, step: nat, k: nat): (r: Ports)
    requires Step(step) && k <= |q| && Level(k, step) && [] in m
    ensures q[..k] in r && [] in r
  {
    if k == 0 then
      assert q[..0] == [];
      m
    else
      var above := Extend(m, q, step, k - step);
      if q[..k] in above then above else above[q[..k] := above[q[..k - step]]]
  }

  /** A path of the way to `q` down to depth `k`. */
  predicate OnWay(q: Bits, step: nat, k: nat, p: Bits) {
    |p| <= k && Level(|p|, step) && p <= q
  }

  lemma OnWayStep(q: Bits, step: nat, k: nat, p: Bits)
    requires Step(step) && step <= k <= |q| && Level(k, step)
    ensures OnWay(q, step, k, p) <==> OnWay(q, step, k - step, p) || p == q[..k]
  {
  }

  /** `r` is `m` with the missing nodes on the way to `q` down to depth `k`, all carrying `port`. */
  ghost predicate Extended(m: Ports, r: Ports, q: Bits, step: nat, k: nat, port: int) {
    && Trie(r, step)
    && (forall p :: p in r <==> p in m || OnWay(q, step, k, p))
    && (forall p :: p in r ==> r[p] == if p in m then m[p] else port)
  }

  lemma LastOnWay(m: Ports, q: Bits, step: nat, k: nat)
    requires Trie(m, step) && step <= k <= |q| && Level(k, step)
    ensures q[..k - step] in m && q[..k] !in m ==> m[q[..k - step]] == TrieLookup(m, q, step)
  {
    DeepestEnds(m, q, step, 0);
    DeepestReaches(m, q, step, k);
    DeepestReaches(m, q, step, k - step);
  }

  /** Old nodes keep their ports; a new node has the port of the deepest old node on the way. */
  lemma {:induction false} ExtendEffect(m: Ports, q: Bits, step: nat, k: nat)
    requires Trie(m, step) && k <= |q| && Level(k, step)
    ensures Extended(m, Extend(m, q, step, k), q, step, k, TrieLookup(m, q, step))
  {
    assert q[..0] == [];
    if k > 0 {
      ExtendEffect(m, q, step, k - step);
      var above := Extend(m, q, step, k - step);
      LastOnWay(m, q, step, k);
      ExtendedStep(m, above, q, step, k, TrieLookup(m, q, step));
    }
  }

  lemma ExtendedStep(m: Ports, above: Ports, q: Bits, step: nat, k: nat, port: int)
    requires Step(step) && step <= k <= |q| && Level(k, step)
    requires Extended(m, above, q, step, k - step, port)
    requires q[..k - step] in m && q[..k] !in m ==> m[q[..k - step]] == port
    ensures q[..k] in above ==> Extended(m, above, q, step, k, port)
    ensures q[..k] !in above ==>
              q[..k - step] in above &&
              Extended(m, above[q[..k] := above[q[..k - step]]], q, step, k, port)
  {
    forall p ensures OnWay(q, step, k, p) <==> OnWay(q, step, k - step, p) || p == q[..k] {
      OnWayStep(q, step, k, p);
    }
    assert OnWay(q, step, k - step, q[..k - step]);
    if q[..k] !in above {
      NewNodeHangs(above, q[..k], above[q[..k - step]], step);
    }
  }

  lemma NewNodeHangs(m: Ports, p: Bits, port: int, step: nat)
    requires Trie(m, step) && |p| >= step && Level(|p|, step) && p[..|p| - step] in m
    ensures Trie(m[p := port], step)
  {
    var n := m[p := port];
    forall x | x in n ensures Hangs(n, x, step) {
      assert x in m ==> Hangs(m, x, step);
    }
  }

  /** insert_info and insert_info_2bit: the way to `q` is made; then the port goes to the node at
      `q`, or, where no node can sit there, to those of the two nodes below that are missing. */
  function Insert(m: Ports, q: Bits, port: int, step: nat): Ports
    requires Step(step) && [] in m
  {
    if Level(|q|, step) then Extend(m, q, step, |q|)[q := port]
    else
      var r := Extend(m, q, step, |q| - 1);
      var s := if q + [false] in r then r else r[q + [false] := port];
      if q + [true] in s then s else s[q + [true] := port]
  }

  lemma InsertIsTrie(m: Ports, q: Bits, port: int, step: nat)
    requires Trie(m, step)
    ensures Trie(Insert(m, q, port, step), step)
  {
    if Level(|q|, step) {
      ExtendEffect(m, q, step, |q|);
      assert q[..|q|] == q;
      SamePaths(Extend(m, q, step, |q|), q, port, step);
    } else {
      ExtendEffect(m, q, step, |q| - 1);
      var r := Extend(m, q, step, |q| - 1);
      assert (q + [false])[..|q| - 1] == q[..|q| - 1] == (q + [true])[..|q| - 1];
      NewNodeHangs(r, q + [false], port, step);
      var s := if q + [false] in r then r else r[q + [false] := port];
      NewNodeHangs(s, q + [true], port, step);
    }
  }

  lemma SamePaths(m: Ports, q: Bits, port: int, step: nat)
    requires Trie(m, step) && q in m
    ensures Trie(m[q := port], step)
  {
    var n := m[q := port];
    forall x | x in n ensures Hangs(n, x, step) {
      assert Hangs(m, x, step);
    }
  }

  /** The two nodes that stand for `q` when it ends between levels. */
  predicate HalfBelow(q: Bits, step: nat, p: Bits) {
    !Level(|q|, step) && q <= p && |p| == |q| + 1
  }

  lemma HalfBelowIs(q: Bits, step: nat, p: Bits)
    requires !Level(|q|, step)
    ensures HalfBelow(q, step, p) <==> p == q + [false] || p == q + [true]
  {
    if HalfBelow(q, step, p) {
      assert p == q + [p[|q|]];
      assert p[|q|] == false || p[|q|] == true;
    }
  }

  /** Which nodes an insertion leaves, and their ports: the node at `q` and new nodes just below it
      get the port, other new nodes the port of the node above, old nodes keep theirs. */
  lemma InsertEffect(m: Ports, q: Bits, port: int, step: nat, p: Bits)
    requires Trie(m, step)
    ensures p in Insert(m, q, port, step) <==> p in m || (p <= q && Level(|p|, step)) || HalfBelow(q, step, p)
    ensures p in Insert(m, q, port, step) ==>
              Insert(m, q, port, step)[p] ==
              if p == q then port
              else if p in m then m[p]
              else if HalfBelow(q, step, p) then port
              else TrieLookup(m, q, step)
  {
    if Level(|q|, step) {
      ExtendEffect(m, q, step, |q|);
      assert OnWay(q, step, |q|, p) <==> p <= q && Level(|p|, step);
    } else {
      ExtendEffect(m, q, step, |q| - 1);
      assert OnWay(q, step, |q| - 1, p) <==> p <= q && Level(|p|, step);
      HalfBelowIs(q, step, p);
      assert p in m ==> Hangs(m, p, step);
    }
  }

  // ---------------------------------------------------------------- lookups after an insertion

  /** An insertion changes the lookup of exactly the addresses under `q` that met no node deeper
      than `q`; whatever is already deeper keeps its port. */
  lemma LookupAfterInsert(m: Ports, q: Bits, port: int, step: nat, a: Bits)
    requires Trie(m, step) && |q| <= WIDTH == |a|
    ensures Trie(Insert(m, q, port, step), step)
    ensures TrieLookup(Insert(m, q, port, step), a, step) ==
            if q <= a && Deepest(m, a, step, 0) <= |q| then port else TrieLookup(m, a, step)
  {
    var n := Insert(m, q, port, step);
    InsertIsTrie(m, q, port, step);
    var d, e := Deepest(m, a, step, 0), Deepest(n, a, step, 0);
    assert a[..0] == [];
    InsertEffect(m, q, port, step, a[..e]);
    InsertEffect(m, q, port, step, a[..d]);
    DeepestEnds(m, a, step, 0);
    DeepestEnds(n, a, step, 0);
    DeepestReaches(n, a, step, d);
    if a[..e] in m {
      DeepestReaches(m, a, step, e);
      assert e == d;
      if q <= a {
        PrefixIs(q, a);
        EndsBelow(m, q, port, step, a);
      }
    } else {
      DeepestReaches(m, a, step, e);
      NewEnd(m, q, port, step, a);
    }
  }

  /** Under `q` the way after the insertion reaches at least the level that stands for `q`. */
  lemma EndsBelow(m: Ports, q: Bits, port: int, step: nat, a: Bits)
    requires Trie(m, step) && |q| <= WIDTH == |a| && q <= a
    ensures Trie(Insert(m, q, port, step), step)
    ensures Deepest(Insert(m, q, port, step), a, step, 0) >= if Level(|q|, step) then |q| else |q| + 1
  {
    InsertIsTrie(m, q, port, step);
    var c := if Level(|q|, step) then |q| else |q| + 1;
    InsertEffect(m, q, port, step, a[..c]);
    PrefixIs(q, a);
    DeepestReaches(Insert(m, q, port, step), a, step, c);
  }

  /** A walk that ends at a new node ends with the port, or with what it met before. */
  lemma NewEnd(m: Ports, q: Bits, port: int, step: nat, a: Bits)
    requires Trie(m, step) && |q| <= WIDTH == |a|
    requires Trie(Insert(m, q, port, step), step)
    requires a[..Deepest(Insert(m, q, port, step), a, step, 0)] !in m
    ensures TrieLookup(Insert(m, q, port, step), a, step) ==
            if q <= a && Deepest(m, a, step, 0) <= |q| then port else TrieLookup(m, a, step)
  {
    var n := Insert(m, q, port, step);
    var d, e := Deepest(m, a, step, 0), Deepest(n, a, step, 0);
    InsertEffect(m, q, port, step, a[..e]);
    DeepestEnds(n, a, step, 0);
    DeepestReaches(m, a, step, e);
    if a[..e] == q || HalfBelow(q, step, a[..e]) {
      assert q <= a;
    } else {
      if q <= a {
        EndsBelow(m, q, port, step, a);
      }
      SameWay(m, q, a, step, e);
    }
  }

  /** Two ways that agree down to a missing node have met the same nodes. */
  lemma SameWay(m: Ports, q: Bits, a: Bits, step: nat, e: nat)
    requires Trie(m, step) && e <= |a| && e <= |q| && Level(e, step) && a[..e] == q[..e] && a[..e] !in m
    ensures TrieLookup(m, a, step) == TrieLookup(m, q, step)
  {
    var d, c := Deepest(m, a, step, 0), Deepest(m, q, step, 0);
    assert a[..0] == [] == q[..0];
    DeepestEnds(m, a, step, 0);
    DeepestEnds(m, q, step, 0);
    DeepestReaches(m, a, step, e);
    DeepestReaches(m, q, step, e);
    assert a[..d] == a[..e][..d] && q[..c] == q[..e][..c];
    assert a[..c] == a[..e][..c] && q[..d] == q[..e][..d];
    DeepestReaches(m, a, step, c);
    DeepestReaches(m, q, step, d);
  }
}
