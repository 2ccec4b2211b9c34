/** Insertion orders in which the tries give wrong answers. */
module TrieOrders {
  import opened LookupTheorems
  import opened Prefixes
  import opened TableScan

  lemma TwoEntries(x: Entry, y: Entry, step: nat)
    requires Step(step)
    ensures TrieOf([x], step) == Insert(map[[] := 0], x.prefix, x.port, step)
    ensures TrieOf([x, y], step) == Insert(TrieOf([x], step), y.prefix, y.port, step)
    ensures TableOf([x, y]) == map[x.prefix := x.port][y.prefix := y.port]
  {
    OneMore([], x, step);
    OneMore([x], y, step);
    assert [] + [x] == [x] && [x] + [y] == [x, y];
  }

  /** The second of two insertions reaches the addresses whose way the first left short enough. */
  lemma SecondLookup(x: Entry, y: Entry, step: nat, a: Bits)
    requires Step(step) && |a| == WIDTH && |x.prefix| <= WIDTH && |y.prefix| <= WIDTH
    ensures Trie(TrieOf([x], step), step)
    ensures TrieLookup(TrieOf([x, y], step), a, step) ==
            if y.prefix <= a && Deepest(TrieOf([x], step), a, step, 0) <= |y.prefix| then y.port
            else if x.prefix <= a then x.port else 0
  {
    TwoEntries(x, y, step);
    assert a[..0] == [];
    assert Deepest(map[[] := 0], a, step, 0) == 0;
    LookupAfterInsert(map[[] := 0], x.prefix, x.port, step, a);
    LookupAfterInsert(TrieOf([x], step), y.prefix, y.port, step, a);
  }

  /** A prefix after one that extends it: nodes made on the longer way keep the old match. */
  lemma LongFirstGoesWrong(a: Bits, step: nat)
    requires Step(step) && |a| == WIDTH && !a[0] && !a[1] && a[2]
    ensures var es := [Entry([false, false, false], 1), Entry([false], 2)];
            Wellformed(es) && TrieLookup(TrieOf(es, step), a, step) == 0 && Lpm(TableOf(es), a) == 2
  {
    var x, y := Entry([false, false, false], 1), Entry([false], 2);
    SecondLookup(x, y, step, a);
    TwoEntries(x, y, step);
    assert a[..2] == x.prefix[..2];
    InsertEffect(map[[] := 0], x.prefix, 1, step, a[..2]);
    DeepestReaches(TrieOf([x], step), a, step, 2);
    assert a[..1] == y.prefix;
    assert forall i :: 1 < i <= WIDTH ==> a[..i] != x.prefix && a[..i] != y.prefix;
    BestIs(TableOf([x, y]), a, WIDTH, 1);
  }

  /** A second insertion of a prefix of odd length changes the binary trie but not the four-way one. */
  lemma SecondInsertIsLost(a: Bits)
    requires |a| == WIDTH && !a[0]
    ensures var es := [Entry([false], 1), Entry([false], 2)];
            Wellformed(es) && TrieLookup(TrieOf(es, 1), a, 1) == 2 == Lpm(TableOf(es), a) &&
            TrieLookup(TrieOf(es, 2), a, 2) == 1
  {
    var x, y := Entry([false], 1), Entry([false], 2);
    SecondMeets(a, 1);
    SecondMeets(a, 2);
    TwoEntries(x, y, 1);
    assert a[..1] == y.prefix;
    assert forall i :: 1 < i <= WIDTH ==> a[..i] != y.prefix;
    BestIs(TableOf([x, y]), a, WIDTH, 1);
  }

  lemma SecondMeets(a: Bits, step: nat)
    requires Step(step) && |a| == WIDTH && !a[0]
    ensures TrieLookup(TrieOf([Entry([false], 1), Entry([false], 2)], step), a, step) == if step == 1 then 2 else 1
  {
    var x, y := Entry([false], 1), Entry([false], 2);
    SecondLookup(x, y, step, a);
    TwoEntries(x, y, step);
    InsertEffect(map[[] := 0], x.prefix, 1, step, a[..2]);
    DeepestReaches(TrieOf([x], step), a, step, 2);
  }
}
