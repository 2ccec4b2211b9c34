/**
 The Internet checksum (Lab10/12-nat/include/checksum.h) on a 32-bit accumulator, and its use in
 the IP header. Words are read little-endian, as the source's 16-bit loads do on its hosts.
 */
module Checksum {

  type Byte = b: nat | b < 256

  const WORD: nat := 0x1_0000
  const ONES: nat := 0xffff
  const U32: nat := 0x1_0000_0000

  function Word(buf: seq<Byte>, i: nat): (w: nat)
    requires 2 * i + 1 < |buf|
    ensures w < WORD && w % 256 == buf[2 * i] && w / 256 == buf[2 * i + 1]
  {
    buf[2 * i] as nat + 256 * buf[2 * i + 1] as nat
  }

  /** The sum of the first `k` words. */
  function WordSum(buf: seq<Byte>, k: nat): nat
    requires 2 * k <= |buf|
  {
    if k == 0 then 0 else WordSum(buf, k - 1) + Word(buf, k - 1)
  }

  /** The sum of all words; an odd last byte counts as a word with a zero upper half. */
  function Total(buf: seq<Byte>): nat {
    WordSum(buf, |buf| / 2) + if |buf| % 2 == 1 then buf[|buf| - 1] else 0
  }

  /** The end-around-carry sum of words adding up to `s`: the residue of `s` modulo 0xffff, with
      0xffff for the non-zero multiples. */
  function OnesSum(s: nat): (r: nat)
    ensures r < WORD
  {
    if s == 0 then 0 else (s - 1) % ONES + 1
  }

  lemma {:induction false} WordSumOfPrefix(buf: seq<Byte>, more: seq<Byte>, k: nat)
    requires 2 * k <= |buf|
    ensures WordSum(buf + more, k) == WordSum(buf, k)
  {
    if k > 0 {
      WordSumOfPrefix(buf, more, k - 1);
    }
  }

  /** Byte by byte: behind an even number of bytes the next one counts as it is, the one after it 256
      times, so an odd last byte counts as if a zero followed. */
  lemma TotalGrows(buf: seq<Byte>, x: Byte, y: Byte)
    requires |buf| % 2 == 0
    ensures Total([]) == 0
    ensures Total(buf + [x]) == Total(buf) + x
    ensures Total(buf + [x, y]) == Total(buf) + x + 256 * y as nat
    ensures Total(buf + [x, 0]) == Total(buf + [x])
  {
    WordSumOfPrefix(buf, [x], |buf| / 2);
    WordSumOfPrefix(buf, [x, y], |buf| / 2);
    WordSumOfPrefix(buf, [x, 0], |buf| / 2);
  }

  // ---------------------------------------------------------------- residues

  lemma {:induction false} ModShift(a: nat, k: nat)
    ensures (a + ONES * k) % ONES == a % ONES
  {
    if k > 0 {
      ModShift(a, k - 1);
    }
  }

  /** Numbers have one end-around-carry sum exactly when they agree modulo 0xffff and on being zero. */
  lemma OnesSumIff(a: nat, b: nat)
    ensures OnesSum(a) == OnesSum(b) <==> (a == 0 <==> b == 0) && a % ONES == b % ONES
  {
    if a > 0 && b > 0 {
      PredMod(a);
      PredMod(b);
    }
  }

  lemma PredMod(a: nat)
    requires a > 0
    ensures a % ONES == if (a - 1) % ONES == ONES - 1 then 0 else (a - 1) % ONES + 1
  {
    var q, r := (a - 1) / ONES, (a - 1) % ONES;
    assert a == r + 1 + ONES * q;
    ModShift(r + 1, q);
  }

  /** Folding the upper half in keeps the sum and makes it smaller. */
  lemma FoldStep(s: nat)
    requires s >= WORD
    ensures 0 < s / WORD + s % WORD < s
    ensures OnesSum(s / WORD + s % WORD) == OnesSum(s)
  {
    var q, r := s / WORD, s % WORD;
    assert s == (q + r) + ONES * q;
    ModShift(q + r, q);
    OnesSumIff(q + r, s);
  }

  // ---------------------------------------------------------------- the loops

  lemma AddWrapped(a: nat, b: nat)
    ensures (a % U32 + b) % U32 == (a + b) % U32
  {
  }

  /** The summing loop of checksum, with the wrap-around of the 32-bit accumulator. */
  method Accumulate(buf: seq<Byte>, initial: nat) returns (sum: nat)
    requires initial < U32
    ensures sum == (initial + Total(buf)) % U32
  {
    sum := initial;
    for i := 0 to |buf| / 2
      invariant sum == (initial + WordSum(buf, i)) % U32
    {
      AddWrapped(initial + WordSum(buf, i), Word(buf, i));
      sum := (sum + Word(buf, i)) % U32;
    }
    if |buf| % 2 == 1 {
      AddWrapped(initial + WordSum(buf, |buf| / 2), buf[|buf| - 1]);
      sum := (sum + buf[|buf| - 1] as nat) % U32;
    }
  }

  /** The folding loop. */
  method Fold(s: nat) returns (sum: nat)
    ensures sum == OnesSum(s)
  {
    sum := s;
    while sum / WORD != 0
      invariant OnesSum(sum) == OnesSum(s)
      decreases sum
    {
      FoldStep(sum);
      sum := sum / WORD + sum % WORD;
    }
  }

  method Compute(buf: seq<Byte>, initial: nat) returns (c: nat)
    requires initial < U32
    ensures c == ChecksumOf(buf, initial)
  {
    var sum := Accumulate(buf, initial);
    sum := Fold(sum);
    c := ONES - sum;
  }

  /** What `Compute` returns. */
  function ChecksumOf(buf: seq<Byte>, initial: nat): (c: nat)
    ensures c < WORD
  {
    ONES - OnesSum((initial + Total(buf)) % U32)
  }

  lemma {:induction false} WordSumBound(buf: seq<Byte>, k: nat)
    requires 2 * k <= |buf|
    ensures WordSum(buf, k) <= ONES * k
  {
    if k > 0 {
      WordSumBound(buf, k - 1);
    }
  }

  /** Up to 65535 bytes and from an initial sum below 2^31 the accumulator does not wrap. */
  lemma NeverWraps(buf: seq<Byte>, initial: nat)
    requires |buf| <= 65535 && initial < 0x8000_0000
    ensures initial + Total(buf) < U32
  {
    WordSumBound(buf, |buf| / 2);
  }

  /** Each wrap drops a carry, so the result is right exactly when the wraps are a multiple of 0xffff
      and do not leave zero of a sum that was not. */
  lemma RightIff(buf: seq<Byte>, initial: nat)
    ensures ChecksumOf(buf, initial) == ONES - OnesSum(initial + Total(buf)) <==>
            var s := initial + Total(buf);
            (s / U32) % ONES == 0 && (s % U32 == 0 ==> s == 0)
  {
    var s := initial + Total(buf);
    var q, r := s / U32, s % U32;
    assert s == r + q + ONES * (q * 0x1_0001);
    ModShift(r + q, q * 0x1_0001);
    OnesSumIff(r, s);
    SameResidueIff(r, q);
  }

  lemma SameResidueIff(r: nat, q: nat)
    ensures (r + q) % ONES == r % ONES <==> q % ONES == 0
  {
    var x, y := r % ONES, q % ONES;
    assert r + q == x + y + ONES * (r / ONES + q / ONES);
    ModShift(x + y, r / ONES + q / ONES);
  }

  // ---------------------------------------------------------------- storing and checking

  /** The buffer with `v` in word `k`. */
  function Stored(buf: seq<Byte>, k: nat, v: nat): (r: seq<Byte>)
    requires 2 * k + 1 < |buf| && v < WORD
    ensures |r| == |buf| && Word(r, k) == v
  {
    buf[2 * k := v % 256][2 * k + 1 := v / 256]
  }

  lemma {:induction false} WordSumStored(buf: seq<Byte>, k: nat, v: nat, n: nat)
    requires 2 * k + 1 < |buf| && v < WORD && 2 * n <= |buf|
    ensures WordSum(Stored(buf, k, v), n) == WordSum(buf, n) + if k < n then v - Word(buf, k) else 0
  {
    if n > 0 {
      WordSumStored(buf, k, v, n - 1);
    }
  }

  lemma TotalStored(buf: seq<Byte>, k: nat, v: nat)
    requires 2 * k + 1 < |buf| && v < WORD
    ensures Total(Stored(buf, k, v)) == Total(buf) - Word(buf, k) + v
  {
    WordSumStored(buf, k, v, |buf| / 2);
  }

  /** Adding `v` to a sum gives all ones exactly for
      the complement of the folded sum, or all ones in place of a zero complement. */
  lemma CompletesIff(s: nat, v: nat)
    requires v < WORD
    ensures OnesSum(s + v) == ONES <==> v == ONES - OnesSum(s) || (OnesSum(s) == ONES && v == ONES)
  {
    ModShift(ONES - 1, 0);
    if s > 0 {
      var q, r := (s - 1) / ONES, (s - 1) % ONES;
      assert s + v - 1 == r + v + ONES * q;
      ModShift(r + v, q);
      if r + v >= ONES {
        ModShift(r + v - ONES, 1);
      }
    }
  }

  lemma ChangeIff(s: nat, x: nat, v: nat)
    requires x <= s && x < WORD && v < WORD && v != x && OnesSum(s) == ONES
    ensures OnesSum(s - x + v) == ONES <==> s != x && ((v == 0 && x == ONES) || (v == ONES && x == 0))
  {
    CompletesIff(s - x, v);
    CompletesIff(s - x, x);
  }

  lemma ChecksumIs(buf: seq<Byte>, initial: nat)
    requires |buf| <= 65535 && initial < 0x8000_0000
    ensures ChecksumOf(buf, initial) == ONES - OnesSum(initial + Total(buf))
  {
    NeverWraps(buf, initial);
  }

  lemma WordInTotal(buf: seq<Byte>, k: nat)
    requires 2 * k + 1 < |buf|
    ensures Word(buf, k) <= Total(buf)
  {
    TotalStored(buf, k, 0);
  }

  /** A word stored where there was zero makes the buffer check, the checksum of the whole being 0,
      exactly when it is the buffer's checksum, or 0xffff for a checksum of 0. */
  lemma ChecksIff(buf: seq<Byte>, k: nat, v: nat, initial: nat)
    requires |buf| <= 65535 && initial < 0x8000_0000 && 2 * k + 1 < |buf| && v < WORD && Word(buf, k) == 0
    ensures ChecksumOf(Stored(buf, k, v), initial) == 0 <==>
            v == ChecksumOf(buf, initial) || (ChecksumOf(buf, initial) == 0 && v == ONES)
  {
    TotalStored(buf, k, v);
    ChecksumIs(buf, initial);
    ChecksumIs(Stored(buf, k, v), initial);
    CompletesIff(initial + Total(buf), v);
  }

  /** A change of one word goes unseen exactly when it is between 0 and 0xffff and the rest of the
      sum is not zero. */
  lemma ChangeUnseenIff(buf: seq<Byte>, k: nat, v: nat, initial: nat)
    requires |buf| <= 65535 && initial < 0x8000_0000 && 2 * k + 1 < |buf| && v < WORD && v != Word(buf, k)
    requires ChecksumOf(buf, initial) == 0
    ensures ChecksumOf(Stored(buf, k, v), initial) == 0 <==>
            ((v == 0 && Word(buf, k) == ONES) || (v == ONES && Word(buf, k) == 0)) &&
            initial + Total(buf) != Word(buf, k)
  {
    var x := Word(buf, k);
    TotalStored(buf, k, v);
    WordInTotal(buf, k);
    ChecksumIs(buf, initial);
    ChecksumIs(Stored(buf, k, v), initial);
    ChangeIff(initial + Total(buf), x, v);
  }

  lemma OddTotal(buf: seq<Byte>, v: Byte)
    requires |buf| % 2 == 1
    ensures buf[|buf| - 1] <= Total(buf)
    ensures Total(buf[|buf| - 1 := v]) == Total(buf) - buf[|buf| - 1] + v
  {
    var front, x := buf[..|buf| - 1], buf[|buf| - 1];
    assert buf == front + [x] && buf[|buf| - 1 := v] == front + [v];
    TotalGrows(front, x, 0);
    TotalGrows(front, v, 0);
  }

  /** A change of the odd last byte never goes unseen. */
  lemma OddByteIsSeen(buf: seq<Byte>, v: Byte, initial: nat)
    requires |buf| <= 65535 && initial < 0x8000_0000 && |buf| % 2 == 1 && v != buf[|buf| - 1]
    requires ChecksumOf(buf, initial) == 0
    ensures ChecksumOf(buf[|buf| - 1 := v], initial) != 0
  {
    OddTotal(buf, v);
    ChecksumIs(buf, initial);
    ChecksumIs(buf[|buf| - 1 := v], initial);
    ChangeIff(initial + Total(buf), buf[|buf| - 1], v);
  }

  /** The checksum field is the sixth word of an IP header. */
  const FIELD: nat := 5

  /** ip_checksum: the field counts as zero and is put back. */
  method IpChecksum(hdr: array<Byte>, ihl: nat) returns (sum: nat)
    requires 5 <= ihl <= 15 && 4 * ihl <= hdr.Length
    modifies hdr
    ensures hdr[..] == old(hdr[..])
    ensures sum == ChecksumOf(Stored(hdr[..4 * ihl], FIELD, 0), 0)
  {
    var low, high := hdr[2 * FIELD], hdr[2 * FIELD + 1];
    hdr[2 * FIELD], hdr[2 * FIELD + 1] := 0, 0;
    assert hdr[..4 * ihl] == Stored(old(hdr[..4 * ihl]), FIELD, 0);
    sum := Compute(hdr[..4 * ihl], 0);
    hdr[2 * FIELD], hdr[2 * FIELD + 1] := low, high;
    assert hdr[..4 * ihl] == old(hdr[..4 * ihl]);
  }

  /** Writing the header's checksum into its field makes the header check. */
  method SetIpChecksum(hdr: array<Byte>, ihl: nat)
    requires 5 <= ihl <= 15 && 4 * ihl <= hdr.Length
    modifies hdr
    ensures exists sum :: 0 <= sum < WORD && hdr[..4 * ihl] == Stored(old(hdr[..4 * ihl]), FIELD, sum)
    ensures hdr[4 * ihl..] == old(hdr[4 * ihl..])
    ensures ChecksumOf(hdr[..4 * ihl], 0) == 0
  {
    var sum := IpChecksum(hdr, ihl);
    ghost var before := hdr[..4 * ihl];
    hdr[2 * FIELD], hdr[2 * FIELD + 1] := sum % 256, sum / 256;
    assert hdr[..4 * ihl] == Stored(before, FIELD, sum) == Stored(Stored(before, FIELD, 0), FIELD, sum);
    ChecksIff(Stored(before, FIELD, 0), FIELD, sum, 0);
  }
}
