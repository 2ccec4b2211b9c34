/** The scan of a table for the longest match, which the tries speed up. */
module TableScan {
  import opened Common
  import opened LookupTheorems
  import opened Prefixes

  /** Entry `k` is the first among the longest that match `a`; none matches when there is no `k`. */
  ghost predicate Selected(es: seq<Entry>, n: nat, a: Bits, k: Option<nat>)
    requires n <= |es|
  {
    match k
    case None => forall j :: 0 <= j < n ==> !(es[j].prefix <= a)
    case Some(i) =>
      && i < n && es[i].prefix <= a
      && (forall j :: 0 <= j < n && es[j].prefix <= a ==> |es[j].prefix| <= |es[i].prefix|)
      && (forall j :: 0 <= j < i && es[j].prefix <= a ==> |es[j].prefix| < |es[i].prefix|)
  }

  /** longest_prefix_match: masks of contiguous ones compare like the lengths they stand for. */
  method LongestPrefixMatch(es: seq<Entry>, a: Bits) returns (selected: Option<nat>)
    ensures Selected(es, |es|, a, selected)
  {
    selected := None;
    for i := 0 to |es|
      invariant Selected(es, i, a, selected)
    {
      if es[i].prefix <= a {
        if selected.None? || |es[selected.value].prefix| < |es[i].prefix| {
          selected := Some(i);
        }
      }
    }
  }

  lemma {:induction false} BestIs(table: Ports, a: Bits, k: nat, d: nat)
    requires d <= k <= |a| && a[..d] in table && !Longer(table, a, d, k)
    ensures Best(table, a, k) == table[a[..d]]
  {
    if d < k {
      BestIs(table, a, k - 1, d);
    }
  }

  lemma {:induction false} BestIsNone(table: Ports, a: Bits, k: nat)
    requires k <= |a| && forall i :: 0 <= i <= k ==> a[..i] !in table
    ensures Best(table, a, k) == 0
  {
    if k > 0 {
      BestIsNone(table, a, k - 1);
    }
  }

  lemma {:induction false} TableMaps(es: seq<Entry>, i: nat)
    requires i < |es| && forall j, k :: 0 <= j < k < |es| ==> es[j].prefix != es[k].prefix
    ensures es[i].prefix in TableOf(es) && TableOf(es)[es[i].prefix] == es[i].port
  {
    if i < |es| - 1 {
      assert es[..|es| - 1][i] == es[i];
      TableMaps(es[..|es| - 1], i);
    }
  }

  /** With distinct prefixes the scan selects the port that the longest-prefix match defines. */
  lemma ScanIsLpm(es: seq<Entry>, a: Bits, selected: Option<nat>)
    requires Selected(es, |es|, a, selected)
    requires forall j, k :: 0 <= j < k < |es| ==> es[j].prefix != es[k].prefix
    ensures Lpm(TableOf(es), a) == if selected.None? then 0 else es[selected.value].port
  {
    forall i | 0 <= i <= |a| && a[..i] in TableOf(es)
      ensures selected.Some? && i <= |es[selected.value].prefix|
    {
      TableHolds(es, a[..i]);
    }
    match selected
    case None => BestIsNone(TableOf(es), a, |a|);
    case Some(s) =>
      TableMaps(es, s);
      PrefixIs(es[s].prefix, a);
      BestIs(TableOf(es), a, |a|, |es[s].prefix|);
  }
}
