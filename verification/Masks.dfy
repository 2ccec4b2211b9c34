/**
 Network masks as numbers: what `&` computes bit by bit, that a mask of leading ones compares the
 leading bits, and that the scan of a routing table by masks is the scan by prefix lengths.
 */
module Masks {
  import opened Common
  import opened RouteTable
  import LongestForwarding
  import TableScan
  import opened LookupTheorems
  import opened Prefixes

  function Pow2(i: nat): (p: nat)
    ensures p > 0
  {
    if i == 0 then 1 else 2 * Pow2(i - 1)
  }

  // ---------------------------------------------------------------- quotients

  lemma Scale(d: nat, p: nat, q: nat)
    requires p < q
    ensures d * p + d <= d * q
  {
    var k := q - p - 1;
    assert d * q == d * (p + 1 + k) == d * p + d + d * k;
  }

  lemma Twice(x: nat, y: nat)
    ensures (2 * x) * y == 2 * (x * y) == x * (2 * y)
  {
  }

  lemma BitTimes(p: nat, b: nat)
    requires b < 2
    ensures p * b == if b == 0 then 0 else p
  {
  }

  lemma DivMod(a: nat, d: nat)
    requires d > 0
    ensures a == d * (a / d) + a % d && a % d < d
  {
  }

  lemma QuotientIs(a: nat, d: nat, q: nat, r: nat)
    requires d > 0 && a == d * q + r && r < d
    ensures a / d == q
  {
    var p := a / d;
    DivMod(a, d);
    if p < q {
      Scale(d, p, q);
    } else if p > q {
      Scale(d, q, p);
    }
  }

  lemma HalfBefore(a: nat, p: nat)
    requires p > 0
    ensures a / (2 * p) == a / 2 / p
  {
    var h, r := a / 2 / p, a / 2 % p;
    DivMod(a / 2, p);
    Twice(p, h);
    QuotientIs(a, 2 * p, h, 2 * r + a % 2);
  }

  /** `x` without its last `i` bits. */
  function Upper(x: nat, i: nat): nat {
    if i == 0 then x else Upper(x / 2, i - 1)
  }

  lemma {:induction false} UpperIs(x: nat, i: nat)
    ensures Upper(x, i) == x / Pow2(i)
    decreases i
  {
    if i > 0 {
      UpperIs(x / 2, i - 1);
      HalfBefore(x, Pow2(i - 1));
    }
  }

  lemma {:induction false} UpperSplits(x: nat, i: nat)
    ensures Upper(x, i) == 2 * Upper(x, i + 1) + Upper(x, i) % 2
    decreases i
  {
    if i > 0 {
      UpperSplits(x / 2, i - 1);
    }
  }

  lemma {:induction false} UpperVanishes(x: nat, i: nat)
    requires x < Pow2(i)
    ensures Upper(x, i) == 0
    decreases i
  {
    if i > 0 {
      UpperVanishes(x / 2, i - 1);
    }
  }

  /** Bit `i` of `x`, counted from the lowest. */
  predicate Bit(x: nat, i: nat) {
    Upper(x, i) % 2 == 1
  }

  lemma BitIs(x: nat, i: nat)
    ensures Bit(x, i) <==> x / Pow2(i) % 2 == 1
  {
    UpperIs(x, i);
  }

  // ---------------------------------------------------------------- the bits of `&`

  lemma AndHalves(x: nat, y: nat)
    ensures LongestForwarding.And(x, y) / 2 == LongestForwarding.And(x / 2, y / 2)
    ensures LongestForwarding.And(x, y) % 2 == (x % 2) * (y % 2)
  {
    var low := (x % 2) * (y % 2);
    BitTimes(x % 2, y % 2);
    if x != 0 && y != 0 {
      assert LongestForwarding.And(x, y) == 2 * LongestForwarding.And(x / 2, y / 2) + low;
    }
  }

  lemma {:induction false} AndUpper(x: nat, y: nat, i: nat)
    ensures Upper(LongestForwarding.And(x, y), i) == LongestForwarding.And(Upper(x, i), Upper(y, i))
    decreases i
  {
    if i > 0 {
      AndHalves(x, y);
      AndUpper(x / 2, y / 2, i - 1);
    }
  }

  /** `&` has exactly the bits that both numbers have. */
  lemma AndBits(x: nat, y: nat, i: nat)
    ensures LongestForwarding.And(x, y) / Pow2(i) % 2 == 1 <==> x / Pow2(i) % 2 == 1 && y / Pow2(i) % 2 == 1
  {
    BitIs(LongestForwarding.And(x, y), i);
    BitIs(x, i);
    BitIs(y, i);
    AndUpper(x, y, i);
    AndHalves(Upper(x, i), Upper(y, i));
    BitTimes(Upper(x, i) % 2, Upper(y, i) % 2);
  }

  // ---------------------------------------------------------------- masks of leading ones

  /** `x` with `k` zeros behind it. */
  function Shifted(x: nat, k: nat): nat {
    if k == 0 then x else 2 * Shifted(x, k - 1)
  }

  lemma {:induction false} SameShift(a: nat, b: nat, k: nat)
    ensures Shifted(a, k) == Shifted(b, k) <==> a == b
  {
    if k > 0 {
      SameShift(a, b, k - 1);
    }
  }

  /** A block of `n` ones with `k` zeros behind it. */
  lemma {:induction false} ShiftedOnes(n: nat, k: nat)
    ensures Shifted(Pow2(n) - 1, k) == Pow2(n + k) - Pow2(k)
    decreases k
  {
    if k > 0 {
      ShiftedOnes(n, k - 1);
    }
  }

  lemma {:induction false} PowLess(i: nat, j: nat)
    requires i <= j
    ensures i < j ==> Pow2(i) < Pow2(j)
    ensures Pow2(i) <= Pow2(j)
    decreases j
  {
    if i < j {
      PowLess(i, j - 1);
    }
  }

  /** The mask of `n` leading ones among 32 bits. */
  function MaskOf(n: nat): nat
    requires n <= WIDTH
  {
    PowLess(WIDTH - n, WIDTH);
    Pow2(WIDTH) - Pow2(WIDTH - n)
  }

  lemma {:induction false} AndAllOnes(x: nat, n: nat)
    requires x < Pow2(n)
    ensures LongestForwarding.And(x, Pow2(n) - 1) == x
    decreases n
  {
    if n > 0 && x > 0 {
      assert (Pow2(n) - 1) / 2 == Pow2(n - 1) - 1 && (Pow2(n) - 1) % 2 == 1;
      AndAllOnes(x / 2, n - 1);
    }
  }

  lemma {:induction false} AndLeading(x: nat, n: nat, k: nat)
    requires x < Pow2(n + k)
    ensures LongestForwarding.And(x, Shifted(Pow2(n) - 1, k)) == Shifted(Upper(x, k), k)
    decreases k
  {
    if k == 0 {
      AndAllOnes(x, n);
    } else {
      var half := Shifted(Pow2(n) - 1, k - 1);
      AndLeading(x / 2, n, k - 1);
      AndHalves(x, 2 * half);
    }
  }

  /** A mask clears the bits behind the leading ones. */
  lemma MaskClears(x: nat, n: nat)
    requires x < Pow2(WIDTH) && n <= WIDTH
    ensures LongestForwarding.And(x, MaskOf(n)) == Shifted(Upper(x, WIDTH - n), WIDTH - n)
  {
    ShiftedOnes(n, WIDTH - n);
    AndLeading(x, n, WIDTH - n);
  }

  lemma MatchesUpper(dst: nat, network: nat, n: nat)
    requires dst < Pow2(WIDTH) && network < Pow2(WIDTH) && n <= WIDTH
    ensures LongestForwarding.Matches(dst, network, MaskOf(n)) <==>
            Upper(dst, WIDTH - n) == Upper(network, WIDTH - n)
  {
    MaskClears(dst, n);
    MaskClears(network, n);
    SameShift(Upper(dst, WIDTH - n), Upper(network, WIDTH - n), WIDTH - n);
  }

  /** An address matches a network under the mask of `n` leading ones exactly if their quotients by
      2^(32 - n) are the same. */
  lemma MatchesIff(dst: nat, network: nat, n: nat)
    requires dst < Pow2(WIDTH) && network < Pow2(WIDTH) && n <= WIDTH
    ensures LongestForwarding.Matches(dst, network, MaskOf(n)) <==>
            dst / Pow2(WIDTH - n) == network / Pow2(WIDTH - n)
  {
    MatchesUpper(dst, network, n);
    UpperIs(dst, WIDTH - n);
    UpperIs(network, WIDTH - n);
  }

  /** Such masks compare as their lengths do. */
  lemma MasksCompare(m: nat, n: nat)
    requires m <= WIDTH && n <= WIDTH
    ensures MaskOf(m) < MaskOf(n) <==> m < n
  {
    if m < n {
      PowLess(WIDTH - n, WIDTH - m);
    } else if n < m {
      PowLess(WIDTH - m, WIDTH - n);
    }
  }

  // ---------------------------------------------------------------- addresses as bits

  /** The 32 bits of an address, highest first. */
  function BitsOf(a: nat): (bits: Bits)
    ensures |bits| == WIDTH
  {
    seq(WIDTH, i requires 0 <= i < WIDTH => Bit(a, WIDTH - 1 - i))
  }

  /** Two addresses share their first `n` bits exactly if they agree without their last 32 - n. */
  lemma {:induction false} SharedBitsIff(a: nat, b: nat, n: nat)
    requires a < Pow2(WIDTH) && b < Pow2(WIDTH) && n <= WIDTH
    ensures BitsOf(a)[..n] == BitsOf(b)[..n] <==> Upper(a, WIDTH - n) == Upper(b, WIDTH - n)
    decreases n
  {
    if n == 0 {
      UpperVanishes(a, WIDTH);
      UpperVanishes(b, WIDTH);
    } else {
      SharedBitsIff(a, b, n - 1);
      UpperSplits(a, WIDTH - n);
      UpperSplits(b, WIDTH - n);
      assert BitsOf(a)[..n] == BitsOf(a)[..n - 1] + [Bit(a, WIDTH - n)];
      assert BitsOf(b)[..n] == BitsOf(b)[..n - 1] + [Bit(b, WIDTH - n)];
      LastBits(BitsOf(a)[..n - 1], Bit(a, WIDTH - n), BitsOf(b)[..n - 1], Bit(b, WIDTH - n));
    }
  }

  lemma LastBits(x: Bits, c: bool, y: Bits, d: bool)
    requires |x| == |y|
    ensures x + [c] == y + [d] <==> x == y && c == d
  {
    if x + [c] == y + [d] {
      assert (x + [c])[..|x|] == x && (y + [d])[..|y|] == y;
      assert (x + [c])[|x|] == c && (y + [d])[|y|] == d;
    }
  }

  // ---------------------------------------------------------------- the two scans

  /** A route whose mask is of leading ones, and the table entry with the prefix that they select. */
  ghost predicate SameNetwork(route: Route, e: Entry) {
    && route.dest < Pow2(WIDTH) && |e.prefix| <= WIDTH
    && route.mask == MaskOf(|e.prefix|) && e.prefix == BitsOf(route.dest)[..|e.prefix|]
  }

  ghost predicate SameTable(rt: seq<Route>, es: seq<Entry>) {
    |rt| == |es| && forall i :: 0 <= i < |rt| ==> SameNetwork(rt[i], es[i])
  }

  /** The mask matches exactly the addresses that the prefix is a prefix of. */
  lemma MatchIsPrefix(route: Route, e: Entry, dst: nat)
    requires SameNetwork(route, e) && dst < Pow2(WIDTH)
    ensures LongestForwarding.Matches(dst, route.dest, route.mask) <==> e.prefix <= BitsOf(dst)
  {
    var n := |e.prefix|;
    MatchesUpper(dst, route.dest, n);
    SharedBitsIff(dst, route.dest, n);
    assert e.prefix <= BitsOf(dst) <==> BitsOf(dst)[..n] == e.prefix;
  }

  /** Scanning the routing table by masks and scanning the prefixes by their lengths select the same
      entry for every address. */
  lemma ScansAgree(rt: seq<Route>, es: seq<Entry>, dst: nat, k: Option<nat>)
    requires SameTable(rt, es) && dst < Pow2(WIDTH)
    ensures LongestForwarding.Selected(rt, |rt|, dst, k) <==> TableScan.Selected(es, |es|, BitsOf(dst), k)
  {
    forall i | 0 <= i < |rt|
      ensures LongestForwarding.Matches(dst, rt[i].dest, rt[i].mask) <==> es[i].prefix <= BitsOf(dst)
    {
      MatchIsPrefix(rt[i], es[i], dst);
    }
    forall i, j | 0 <= i < |rt| && 0 <= j < |rt|
      ensures rt[i].mask < rt[j].mask <==> |es[i].prefix| < |es[j].prefix|
    {
      MasksCompare(|es[i].prefix|, |es[j].prefix|);
    }
  }
}
