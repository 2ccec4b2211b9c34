/**
 When the tries answer like the longest-prefix match, after each insertion and after a whole table.
 An insertion keeps the agreement exactly unless it shadows: the port differs from the match so far
 of the prefix itself, and some address under it has no longer match although a node deeper than the
 prefix is already on its way.
 */
module LookupTheorems {
  import opened Common
  import opened Prefixes

  datatype Entry = Entry(prefix: Bits, port: int)

  // ---------------------------------------------------------------- which nodes a table leaves

  /** Inserting `r` makes a node at `p`. */
  predicate Covers(r: Bits, p: Bits, step: nat) {
    (p <= r && Level(|p|, step)) || HalfBelow(r, step, p)
  }

  ghost predicate Covered(table: Ports, p: Bits, step: nat) {
    exists r :: r in table && Covers(r, p, step)
  }

  /** `m` has the nodes that inserting the prefixes of `table` makes, in any order. */
  ghost predicate Grown(m: Ports, table: Ports, step: nat) {
    && Trie(m, step)
    && (forall r :: r in table ==> |r| <= WIDTH)
    && (forall p :: p in m <==> p == [] || Covered(table, p, step))
  }

  ghost predicate Agree(m: Ports, table: Ports, step: nat)
    requires Step(step) && [] in m
  {
    forall a: Bits :: |a| == WIDTH ==> TrieLookup(m, a, step) == Lpm(table, a)
  }

  lemma CoveredAfterAdd(table: Ports, q: Bits, port: int, p: Bits, step: nat)
    ensures Covered(table[q := port], p, step) <==> Covered(table, p, step) || Covers(q, p, step)
  {
    if Covered(table, p, step) {
      var r :| r in table && Covers(r, p, step);
      assert r in table[q := port];
    }
    if Covers(q, p, step) {
      assert q in table[q := port];
    }
  }

  /** The nodes of the trie depend on the table alone, not on the order of insertion. */
  lemma GrownAfterInsert(m: Ports, table: Ports, q: Bits, port: int, step: nat)
    requires Grown(m, table, step) && |q| <= WIDTH
    ensures Grown(Insert(m, q, port, step), table[q := port], step)
  {
    InsertIsTrie(m, q, port, step);
    forall p ensures p in Insert(m, q, port, step) <==> p == [] || Covered(table[q := port], p, step) {
      InsertEffect(m, q, port, step, p);
      CoveredAfterAdd(table, q, port, p, step);
    }
  }

  // ---------------------------------------------------------------- one insertion

  /** A node below `q` is on the way to `a`, which has no entry longer than `q`. */
  ghost predicate Hidden(table: Ports, q: Bits, step: nat, a: Bits) {
    && Step(step) && |a| == WIDTH && q <= a && !Longer(table, a, |q|, WIDTH)
    && Below(|q|, step) <= WIDTH && Covered(table, a[..Below(|q|, step)], step)
  }

  ghost predicate Shadowed(table: Ports, q: Bits, step: nat) {
    exists a :: Hidden(table, q, step, a)
  }

  lemma NextLevel(k: nat, e: nat, step: nat)
    requires Step(step) && Level(e, step)
    ensures k < e <==> Below(k, step) <= e
  {
  }

  /** The walk passes below `q` exactly when the first level below it has a node. */
  lemma PassesBelow(m: Ports, table: Ports, q: Bits, step: nat, a: Bits)
    requires Grown(m, table, step) && |a| == WIDTH && q <= a
    ensures Deepest(m, a, step, 0) > |q| <==>
            Below(|q|, step) <= WIDTH && Covered(table, a[..Below(|q|, step)], step)
  {
    var d := Below(|q|, step);
    DeepestEnds(m, a, step, 0);
    NextLevel(|q|, Deepest(m, a, step, 0), step);
    if d <= WIDTH {
      DeepestReaches(m, a, step, d);
      assert a[..d] != [];
    }
  }

  /** Any entry matching beyond `q` has put a node there. */
  lemma LongerPasses(m: Ports, table: Ports, q: Bits, step: nat, a: Bits)
    requires Grown(m, table, step) && |a| == WIDTH && q <= a && Longer(table, a, |q|, WIDTH)
    ensures Deepest(m, a, step, 0) > |q|
  {
    var i :| |q| < i <= WIDTH && a[..i] in table;
    var d := if Level(i, step) then i else i + 1;
    assert Covers(a[..i], a[..d], step);
    DeepestReaches(m, a, step, d);
  }

  /** What one insertion does to the agreement at one address. */
  lemma AgreesAt(m: Ports, table: Ports, q: Bits, port: int, step: nat, a: Bits)
    requires Grown(m, table, step) && |a| == WIDTH && |q| <= WIDTH
    requires TrieLookup(m, a, step) == Lpm(table, a)
    ensures [] in Insert(m, q, port, step)
    ensures TrieLookup(Insert(m, q, port, step), a, step) == Lpm(table[q := port], a) <==>
            (Hidden(table, q, step, a) ==> port == Lpm(table, q))
  {
    LookupAfterInsert(m, q, port, step, a);
    LpmAfterAdd(table, q, port, a);
    if q <= a {
      PassesBelow(m, table, q, step, a);
      if Longer(table, a, |q|, WIDTH) {
        LongerPasses(m, table, q, step, a);
      } else {
        BestWithoutLonger(table, q, a, WIDTH);
      }
    }
  }

  /** An insertion keeps a trie in agreement with the table exactly when it shadows no address, or
      its port is the one those addresses matched already. */
  lemma InsertExactIff(m: Ports, table: Ports, q: Bits, port: int, step: nat)
    requires Grown(m, table, step) && |q| <= WIDTH && Agree(m, table, step)
    ensures Grown(Insert(m, q, port, step), table[q := port], step)
    ensures Agree(Insert(m, q, port, step), table[q := port], step) <==>
            port == Lpm(table, q) || !Shadowed(table, q, step)
  {
    GrownAfterInsert(m, table, q, port, step);
    forall a: Bits | |a| == WIDTH
      ensures TrieLookup(Insert(m, q, port, step), a, step) == Lpm(table[q := port], a) <==>
              (Hidden(table, q, step, a) ==> port == Lpm(table, q))
    {
      AgreesAt(m, table, q, port, step, a);
    }
    if Shadowed(table, q, step) {
      var a :| Hidden(table, q, step, a);
    }
  }

  // ---------------------------------------------------------------- whole tables

  function TableOf(es: seq<Entry>): Ports {
    if es == [] then map[] else TableOf(es[..|es| - 1])[es[|es| - 1].prefix := es[|es| - 1].port]
  }

  /** The trie after inserting the entries in order. */
  function TrieOf(es: seq<Entry>, step: nat): (m: Ports)
    requires Step(step)
    ensures [] in m
  {
    if es == [] then map[[] := 0]
    else Insert(TrieOf(es[..|es| - 1], step), es[|es| - 1].prefix, es[|es| - 1].port, step)
  }

  ghost predicate Wellformed(es: seq<Entry>) {
    forall e :: e in es ==> |e.prefix| <= WIDTH
  }

  ghost predicate Safe(es: seq<Entry>, k: nat, step: nat)
    requires k < |es|
  {
    var table := TableOf(es[..k]);
    es[k].port == Lpm(table, es[k].prefix) || !Shadowed(table, es[k].prefix, step)
  }

  lemma {:induction false} TrieIsGrown(es: seq<Entry>, step: nat)
    requires Wellformed(es) && Step(step)
    ensures Grown(TrieOf(es, step), TableOf(es), step)
  {
    if es != [] {
      var k := |es| - 1;
      assert es[k] in es;
      TrieIsGrown(es[..k], step);
      GrownAfterInsert(TrieOf(es[..k], step), TableOf(es[..k]), es[k].prefix, es[k].port, step);
    }
  }

  lemma EmptyAgrees(step: nat)
    requires Step(step)
    ensures Agree(map[[] := 0], map[], step)
  {
    forall a: Bits | |a| == WIDTH ensures TrieLookup(map[[] := 0], a, step) == Lpm(map[], a) {
      EmptyLpm(a, WIDTH);
      assert Deepest(map[[] := 0], a, step, 0) == 0 && a[..0] == [];
    }
  }

  lemma {:induction false} EmptyLpm(a: Bits, k: nat)
    requires k <= |a|
    ensures Best(map[], a, k) == 0
  {
    if k > 0 {
      EmptyLpm(a, k - 1);
    }
  }

  /** After `k` insertions the trie answers every address like the table. */
  ghost predicate RightAfter(es: seq<Entry>, k: nat, step: nat)
    requires k <= |es| && Step(step)
  {
    Agree(TrieOf(es[..k], step), TableOf(es[..k]), step)
  }

  lemma RightStep(es: seq<Entry>, k: nat, step: nat)
    requires Wellformed(es) && Step(step) && k < |es| && RightAfter(es, k, step)
    ensures RightAfter(es, k + 1, step) <==> Safe(es, k, step)
  {
    var before, after := es[..k], es[..k + 1];
    assert after[..|after| - 1] == before && es[k] in es;
    TrieIsGrown(before, step);
    InsertExactIff(TrieOf(before, step), TableOf(before), es[k].prefix, es[k].port, step);
  }

  lemma {:induction false} SafeIsRight(es: seq<Entry>, k: nat, step: nat)
    requires Wellformed(es) && Step(step) && k <= |es| && forall j :: 0 <= j < k ==> Safe(es, j, step)
    ensures RightAfter(es, k, step)
  {
    if k == 0 {
      EmptyAgrees(step);
    } else {
      SafeIsRight(es, k - 1, step);
      RightStep(es, k - 1, step);
    }
  }

  /** A trie answers right after every insertion exactly when every insertion is safe. */
  lemma AlwaysRightIff(es: seq<Entry>, step: nat)
    requires Wellformed(es) && Step(step)
    ensures (forall k :: 0 <= k <= |es| ==> RightAfter(es, k, step)) <==>
            (forall k :: 0 <= k < |es| ==> Safe(es, k, step))
  {
    if forall k :: 0 <= k <= |es| ==> RightAfter(es, k, step) {
      forall k | 0 <= k < |es| ensures Safe(es, k, step) {
        RightStep(es, k, step);
      }
    }
    if forall k :: 0 <= k < |es| ==> Safe(es, k, step) {
      forall k | 0 <= k <= |es| ensures RightAfter(es, k, step) {
        SafeIsRight(es, k, step);
      }
    }
  }

  // ---------------------------------------------------------------- the whole table at once

  lemma {:induction false} TableHolds(es: seq<Entry>, r: Bits)
    ensures r in TableOf(es) <==> exists i :: 0 <= i < |es| && es[i].prefix == r
  {
    if es != [] {
      var k := |es| - 1;
      TableHolds(es[..k], r);
      if i :| 0 <= i < |es| && es[i].prefix == r {
        assert i < k ==> es[..k][i] == es[i];
      }
    }
  }

  /** One of the first `n` entries makes a node at `p`. */
  ghost predicate CoveredBefore(es: seq<Entry>, n: nat, p: Bits, step: nat)
    requires n <= |es|
  {
    exists h :: 0 <= h < n && Covers(es[h].prefix, p, step)
  }

  /** Entry `i` matches `a`, and no earlier entry has put a node deeper than it on the way to `a`. */
  ghost predicate Seen(es: seq<Entry>, i: nat, a: Bits, step: nat)
    requires Step(step) && i < |es| && |a| == WIDTH
  {
    && es[i].prefix <= a
    && (Below(|es[i].prefix|, step) <= WIDTH ==> !CoveredBefore(es, i, a[..Below(|es[i].prefix|, step)], step))
  }

  ghost predicate LastSeen(es: seq<Entry>, a: Bits, step: nat, k: Option<nat>)
    requires Step(step) && |a| == WIDTH
  {
    match k
    case None => forall j :: 0 <= j < |es| ==> !Seen(es, j, a, step)
    case Some(i) => i < |es| && Seen(es, i, a, step) && forall j :: i < j < |es| ==> !Seen(es, j, a, step)
  }

  /** Entry `k` is the last among the longest that match `a`. */
  ghost predicate LastLongest(es: seq<Entry>, a: Bits, k: Option<nat>) {
    match k
    case None => forall j :: 0 <= j < |es| ==> !(es[j].prefix <= a)
    case Some(i) =>
      && i < |es| && es[i].prefix <= a
      && forall j :: 0 <= j < |es| && es[j].prefix <= a ==>
           |es[j].prefix| <= |es[i].prefix| && (j > i ==> |es[j].prefix| < |es[i].prefix|)
  }

  /** The port of entry `k`, 0 without one. */
  function PortAt(es: seq<Entry>, k: Option<nat>): int
    requires k.Some? ==> k.value < |es|
  {
    match k
    case None => 0
    case Some(i) => es[i].port
  }

  lemma CoveredByEntries(es: seq<Entry>, p: Bits, step: nat)
    ensures Covered(TableOf(es), p, step) <==> CoveredBefore(es, |es|, p, step)
  {
    if CoveredBefore(es, |es|, p, step) {
      var h :| 0 <= h < |es| && Covers(es[h].prefix, p, step);
      TableHolds(es, es[h].prefix);
    }
    if r :| r in TableOf(es) && Covers(r, p, step) {
      TableHolds(es, r);
    }
  }

  lemma SeenInFront(es: seq<Entry>, i: nat, a: Bits, step: nat)
    requires Step(step) && i < |es| - 1 && |a| == WIDTH
    ensures Seen(es[..|es| - 1], i, a, step) <==> Seen(es, i, a, step)
  {
    var front := es[..|es| - 1];
    forall p ensures CoveredBefore(front, i, p, step) <==> CoveredBefore(es, i, p, step) {
      assert forall h :: 0 <= h < i ==> front[h] == es[h];
    }
  }

  lemma SameCovers(front: seq<Entry>, es: seq<Entry>, p: Bits, step: nat)
    requires front <= es
    ensures CoveredBefore(front, |front|, p, step) <==> CoveredBefore(es, |front|, p, step)
  {
    assert forall h :: 0 <= h < |front| ==> front[h] == es[h];
  }

  /** The last entry is seen exactly by the addresses whose walk ended no deeper than it. */
  lemma SeenIfShallow(front: seq<Entry>, e: Entry, a: Bits, step: nat)
    requires Wellformed(front) && Step(step) && |a| == WIDTH && e.prefix <= a
    ensures Seen(front + [e], |front|, a, step) <==> Deepest(TrieOf(front, step), a, step, 0) <= |e.prefix|
  {
    TrieIsGrown(front, step);
    PassesBelow(TrieOf(front, step), TableOf(front), e.prefix, step, a);
    var d := Below(|e.prefix|, step);
    if d <= WIDTH {
      CoveredByEntries(front, a[..d], step);
      SameCovers(front, front + [e], a[..d], step);
    }
  }

  lemma OneMore(es: seq<Entry>, e: Entry, step: nat)
    requires Step(step)
    ensures TrieOf(es + [e], step) == Insert(TrieOf(es, step), e.prefix, e.port, step)
    ensures TableOf(es + [e]) == TableOf(es)[e.prefix := e.port]
  {
    assert (es + [e])[..|es|] == es;
  }

  /** One more insertion changes the lookup of `a` exactly when it is seen from there. */
  lemma LookupStep(front: seq<Entry>, e: Entry, a: Bits, step: nat)
    requires Wellformed(front) && |e.prefix| <= WIDTH && Step(step) && |a| == WIDTH
    ensures TrieLookup(TrieOf(front + [e], step), a, step) ==
            if Seen(front + [e], |front|, a, step) then e.port else TrieLookup(TrieOf(front, step), a, step)
  {
    FrontTrie(front, step);
    OneMore(front, e, step);
    LookupAfterInsert(TrieOf(front, step), e.prefix, e.port, step, a);
    if e.prefix <= a {
      SeenIfShallow(front, e, a, step);
    }
  }

  lemma FrontTrie(es: seq<Entry>, step: nat)
    requires Wellformed(es) && Step(step)
    ensures Trie(TrieOf(es, step), step)
  {
    TrieIsGrown(es, step);
  }

  /** A lookup after the whole table is loaded gives the port of the last entry seen. */
  lemma {:induction false} LookupIsLastSeen(es: seq<Entry>, a: Bits, step: nat, k: Option<nat>)
    requires Wellformed(es) && Step(step) && |a| == WIDTH && LastSeen(es, a, step, k)
    ensures TrieLookup(TrieOf(es, step), a, step) == PortAt(es, k)
  {
    if es == [] {
      assert a[..0] == [];
      assert Deepest(map[[] := 0], a, step, 0) == 0;
    } else {
      var front, last := es[..|es| - 1], es[|es| - 1];
      assert es == front + [last] && last in es;
      LookupStep(front, last, a, step);
      if !Seen(es, |es| - 1, a, step) {
        forall i: nat | i < |front| ensures Seen(front, i, a, step) <==> Seen(es, i, a, step) {
          SeenInFront(es, i, a, step);
        }
        LookupIsLastSeen(front, a, step, k);
      }
    }
  }

  lemma LongerIsEntry(es: seq<Entry>, a: Bits, n: nat)
    requires |a| == WIDTH
    ensures Longer(TableOf(es), a, n, WIDTH) <==> exists i :: 0 <= i < |es| && es[i].prefix <= a && |es[i].prefix| > n
  {
    if i :| 0 <= i < |es| && es[i].prefix <= a && |es[i].prefix| > n {
      PrefixIs(es[i].prefix, a);
      TableHolds(es, es[i].prefix);
      assert a[..|es[i].prefix|] in TableOf(es);
    }
    if l :| n < l <= WIDTH && a[..l] in TableOf(es) {
      TableHolds(es, a[..l]);
    }
  }

  lemma {:induction false} LpmIsLastLongest(es: seq<Entry>, a: Bits, k: Option<nat>)
    requires |a| == WIDTH && LastLongest(es, a, k)
    ensures Lpm(TableOf(es), a) == PortAt(es, k)
  {
    if es == [] {
      EmptyLpm(a, WIDTH);
    } else {
      var last := |es| - 1;
      var front, q := es[..last], es[last].prefix;
      LpmAfterAdd(TableOf(front), q, es[last].port, a);
      LongerIsEntry(front, a, |q|);
      assert forall i :: 0 <= i < last ==> front[i] == es[i];
      if k != Some(last) {
        LpmIsLastLongest(front, a, k);
      }
    }
  }

  lemma SomeLastSeen(es: seq<Entry>, a: Bits, step: nat) returns (k: Option<nat>)
    requires Step(step) && |a| == WIDTH
    ensures LastSeen(es, a, step, k)
  {
    k := None;
    for i := 0 to |es|
      invariant k.None? ==> forall j :: 0 <= j < i ==> !Seen(es, j, a, step)
      invariant k.Some? ==> k.value < i && Seen(es, k.value, a, step)
      invariant k.Some? ==> forall j :: k.value < j < i ==> !Seen(es, j, a, step)
    {
      if Seen(es, i, a, step) {
        k := Some(i);
      }
    }
  }

  lemma SomeLastLongest(es: seq<Entry>, a: Bits) returns (k: Option<nat>)
    ensures LastLongest(es, a, k)
  {
    k := None;
    for i := 0 to |es|
      invariant k.None? ==> forall j :: 0 <= j < i ==> !(es[j].prefix <= a)
      invariant k.Some? ==> k.value < i && es[k.value].prefix <= a
      invariant k.Some? ==> forall j :: 0 <= j < i && es[j].prefix <= a ==>
                  |es[j].prefix| <= |es[k.value].prefix| &&
                  (j > k.value ==> |es[j].prefix| < |es[k.value].prefix|)
    {
      if es[i].prefix <= a && (k.None? || |es[k.value].prefix| <= |es[i].prefix|) {
        k := Some(i);
      }
    }
  }

  /** The last entry seen from `a` has the port of the last among the longest that match `a`. */
  ghost predicate RightFor(es: seq<Entry>, a: Bits, step: nat)
    requires Step(step) && |a| == WIDTH
  {
    forall i, j :: LastSeen(es, a, step, i) && LastLongest(es, a, j) ==> PortAt(es, i) == PortAt(es, j)
  }

  ghost predicate WellOrdered(es: seq<Entry>, step: nat)
    requires Step(step)
  {
    forall a: Bits :: |a| == WIDTH ==> RightFor(es, a, step)
  }

  /** Once a table is loaded, whatever happened on the way, a trie answers every address right
      exactly when the table's order hides no match. */
  lemma FinallyRightIff(es: seq<Entry>, step: nat)
    requires Wellformed(es) && Step(step)
    ensures Agree(TrieOf(es, step), TableOf(es), step) <==> WellOrdered(es, step)
  {
    forall a: Bits | |a| == WIDTH
      ensures TrieLookup(TrieOf(es, step), a, step) == Lpm(TableOf(es), a) <==> RightFor(es, a, step)
    {
      RightForIff(es, a, step);
    }
  }

  lemma RightForIff(es: seq<Entry>, a: Bits, step: nat)
    requires Wellformed(es) && Step(step) && |a| == WIDTH
    ensures TrieLookup(TrieOf(es, step), a, step) == Lpm(TableOf(es), a) <==> RightFor(es, a, step)
  {
    var i := SomeLastSeen(es, a, step);
    var j := SomeLastLongest(es, a);
    LookupIsLastSeen(es, a, step, i);
    LpmIsLastLongest(es, a, j);
    forall k, l | LastSeen(es, a, step, k) && LastLongest(es, a, l) ensures PortAt(es, k) == PortAt(es, i) {
      LookupIsLastSeen(es, a, step, k);
    }
    forall k, l | LastSeen(es, a, step, k) && LastLongest(es, a, l) ensures PortAt(es, l) == PortAt(es, j) {
      LpmIsLastLongest(es, a, l);
    }
  }

  // ---------------------------------------------------------------- an order that is always right

  /** No prefix comes again or after one that extends it. */
  ghost predicate ShortFirst(es: seq<Entry>) {
    forall i, j :: 0 <= i < j < |es| ==> !(es[j].prefix <= es[i].prefix)
  }

  /** Shadowing needs an earlier entry at or under the new prefix. */
  lemma ShadowsOnlyUnder(table: Ports, q: Bits, step: nat)
    requires Shadowed(table, q, step)
    ensures exists r :: r in table && q <= r
  {
    var a :| Hidden(table, q, step, a);
    var p := a[..Below(|q|, step)];
    var r :| r in table && Covers(r, p, step);
    assert q <= p;
    assert q <= r;
  }

  lemma NothingUnder(es: seq<Entry>, k: nat)
    requires ShortFirst(es) && k < |es|
    ensures forall r :: r in TableOf(es[..k]) ==> !(es[k].prefix <= r)
  {
    forall r | r in TableOf(es[..k]) ensures !(es[k].prefix <= r) {
      TableHolds(es[..k], r);
      var i :| 0 <= i < k && es[..k][i].prefix == r;
      assert es[i].prefix == r;
    }
  }

  lemma ShortFirstIsSafe(es: seq<Entry>, k: nat, step: nat)
    requires ShortFirst(es) && k < |es|
    ensures Safe(es, k, step)
  {
    NothingUnder(es, k);
    if Shadowed(TableOf(es[..k]), es[k].prefix, step) {
      ShadowsOnlyUnder(TableOf(es[..k]), es[k].prefix, step);
    }
  }

  /** With distinct prefixes inserted before their extensions, both tries and the table agree on
      every address. */
  lemma TriesMatchTable(es: seq<Entry>, a: Bits)
    requires Wellformed(es) && ShortFirst(es) && |a| == WIDTH
    ensures TrieLookup(TrieOf(es, 1), a, 1) == Lpm(TableOf(es), a) == TrieLookup(TrieOf(es, 2), a, 2)
  {
    forall step: nat, k | Step(step) && 0 <= k < |es| ensures Safe(es, k, step) {
      ShortFirstIsSafe(es, k, step);
    }
    SafeIsRight(es, |es|, 1);
    SafeIsRight(es, |es|, 2);
    assert es[..|es|] == es;
  }
}
