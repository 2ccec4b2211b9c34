/** Hop distances in a directed graph given by its set of edges. */
module Hops {
  import opened Common

  type Edges = set<(nat, nat)>

  /** There is a walk of exactly `k` edges from `u` to `v`. */
  ghost predicate Reaches(e: Edges, u: nat, v: nat, k: nat)
    decreases k
  {
    if k == 0 then u == v
    else exists w: nat :: Reaches(e, u, w, k - 1) && (w, v) in e
  }

  /** `d` is the least number of hops from `u` to `v`. */
  ghost predicate IsDist(e: Edges, u: nat, v: nat, d: nat) {
    Reaches(e, u, v, d) && forall k: nat :: k < d ==> !Reaches(e, u, v, k)
  }

  lemma {:induction false} Concat(e: Edges, u: nat, w: nat, v: nat, j: nat, k: nat)
    requires Reaches(e, u, w, j) && Reaches(e, w, v, k)
    ensures Reaches(e, u, v, j + k)
    decreases k
  {
    if k > 0 {
      var x: nat :| Reaches(e, w, x, k - 1) && (x, v) in e;
      Concat(e, u, w, x, j, k - 1);
    }
  }

  lemma OneHop(e: Edges, u: nat, v: nat)
    requires (u, v) in e
    ensures Reaches(e, u, v, 1)
  {
    assert Reaches(e, u, u, 0);
  }

  lemma HopMore(e: Edges, u: nat, w: nat, v: nat, k: nat)
    requires (w, v) in e
    ensures Reaches(e, u, w, k) ==> Reaches(e, u, v, k + 1)
  {
  }

  /** Some walk implies a shortest one. */
  lemma {:induction false} DistExists(e: Edges, u: nat, v: nat, k: nat) returns (d: nat)
    requires Reaches(e, u, v, k)
    ensures d <= k && IsDist(e, u, v, d)
    decreases k
  {
    if j: nat :| j < k && Reaches(e, u, v, j) {
      d := DistExists(e, u, v, j);
    } else {
      d := k;
    }
  }

  /** A shortest walk passes one vertex at each smaller distance. */
  lemma {:induction false} Layers(e: Edges, u: nat, v: nat, d: nat) returns (vs: seq<nat>)
    requires IsDist(e, u, v, d)
    ensures |vs| == d + 1 && vs[d] == v
    ensures forall k :: 0 <= k <= d ==> IsDist(e, u, vs[k], k)
    ensures forall k :: 0 < k <= d ==> (vs[k - 1], vs[k]) in e
    decreases d
  {
    if d == 0 {
      vs := [v];
    } else {
      var w: nat :| Reaches(e, u, w, d - 1) && (w, v) in e;
      forall k: nat | k < d - 1 ensures !Reaches(e, u, w, k) {
        HopMore(e, u, w, v, k);
      }
      var before := Layers(e, u, w, d - 1);
      vs := before + [v];
    }
  }

  /** Distances are below the number of vertices. */
  lemma DistBelow(e: Edges, u: nat, v: nat, d: nat, n: nat)
    requires u < n && forall p :: p in e ==> p.0 < n && p.1 < n
    requires IsDist(e, u, v, d)
    ensures d < n
  {
    var vs := Layers(e, u, v, d);
    forall k | 0 <= k < |vs| ensures vs[k] < n {
      assert k > 0 ==> (vs[k - 1], vs[k]) in e;
    }
    forall j, k | 0 <= j < k < |vs| ensures vs[j] != vs[k] {
      assert IsDist(e, u, vs[j], j) && IsDist(e, u, vs[k], k);
    }
    Pigeonhole(vs, n);
  }
}
