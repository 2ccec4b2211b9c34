/**
 Sequence numbers that wrap. The release loop compares them as plain integers; here the true,
 unwrapped numbers are kept beside the 32-bit ones to say exactly when that releases too much or
 too little.
 */
module TcpWrap {
  import opened RingBuffer
  import opened TcpSender

  /** A send buffer whose true ends are `ends`, beyond `una`, as the 32-bit fields show them. */
  ghost predicate ShowsEnds(buf: seq<SendEntry>, una: nat, ends: seq<nat>) {
    && |buf| == |ends|
    && (forall i :: 0 <= i < |buf| ==> buf[i].seqEnd == ends[i] % U32)
    && (forall i, j :: 0 <= i < j < |ends| ==> ends[i] < ends[j])
    && forall i :: 0 <= i < |ends| ==> una < ends[i] < una + U32
  }

  /** How many of the true ends an acknowledgement of `ack` covers. */
  function EndsUpTo(ends: seq<nat>, ack: nat): (j: nat)
    ensures j <= |ends|
    ensures forall i :: 0 <= i < j ==> ends[i] <= ack
    ensures j < |ends| ==> ends[j] > ack
  {
    if ends == [] || ends[0] > ack then 0 else 1 + EndsUpTo(ends[1..], ack)
  }

  lemma WrapOrder(x: nat, y: nat)
    requires x <= y < x + U32
    ensures x / U32 == y / U32 <==> x % U32 <= y % U32
    ensures x / U32 != y / U32 <==> x / U32 + 1 == y / U32
  {
  }

  lemma BetweenSameBlock(x: nat, y: nat, z: nat)
    requires x <= y <= z && x / U32 == z / U32
    ensures y % U32 <= z % U32
  {
  }

  /** The loop's count is the true one exactly when the comparisons at its two ends come out right. */
  lemma CoveredIsTrueIff(buf: seq<SendEntry>, una: nat, ends: seq<nat>, ack: nat)
    requires ShowsEnds(buf, una, ends) && ack < una + U32
    ensures var j := EndsUpTo(ends, ack);
            Covered(buf, ack % U32) == j <==>
            (j > 0 ==> ends[0] / U32 == ack / U32) && (j < |ends| ==> ack % U32 < ends[j] % U32)
  {
    var j, n := EndsUpTo(ends, ack), Covered(buf, ack % U32);
    if j > 0 {
      WrapOrder(ends[0], ack);
      if ends[0] / U32 == ack / U32 && n < j {
        BetweenSameBlock(ends[0], ends[n], ack);
      }
    }
  }

  /** An acknowledgement of the true number `ack`, new, repeated or long overtaken, releases exactly
      the entries it covers if and only if it repeats snd_una, or no multiple of 2^32 separates it
      from the first end it covers and it compares below the first end it does not cover. */
  lemma ReleaseIsExactIff(s: Sender, una: nat, ends: seq<nat>, ack: nat, rwnd: nat)
    requires ShowsEnds(s.sndBuf, una, ends) && s.sndUna == una % U32 && ack < una + U32
    ensures var j := EndsUpTo(ends, ack);
            ProcessAck(s, ack % U32, rwnd).sender.sndBuf == s.sndBuf[j..] <==>
            || ack % U32 == una % U32
            || ((j > 0 ==> ends[0] / U32 == ack / U32) && (j < |ends| ==> ack % U32 < ends[j] % U32))
  {
    var j := EndsUpTo(ends, ack);
    AckLeaves(s, ack % U32, rwnd);
    if ack % U32 == s.sndUna {
      RepeatIsNotNew(una, ack);
      assert j == 0;
    } else {
      CoveredIsTrueIff(s.sndBuf, una, ends, ack);
      var n := Covered(s.sndBuf, ack % U32);
      assert |s.sndBuf[n..]| == |ends| - n && |s.sndBuf[j..]| == |ends| - j;
    }
  }

  lemma RepeatIsNotNew(una: nat, ack: nat)
    requires ack < una + U32 && ack % U32 == una % U32
    ensures ack <= una
  {
  }

  /** Across a wrap, acknowledging the first of two segments releases both. */
  lemma WrapReleasesUnacked(s: Sender, a: SendEntry, b: SendEntry, rwnd: nat)
    requires s.sndBuf == [a, b] && s.sndUna == U32 - 2000
    requires a.seqEnd == U32 - 540 && b.seqEnd == 920
    ensures ProcessAck(s, U32 - 540, rwnd).sender.sndBuf == []
  {
    var ends := [U32 - 540, U32 + 920];
    assert EndsUpTo(ends, U32 - 540) == 1 by {
      assert ends[1..] == [U32 + 920];
    }
    ReleaseIsExactIff(s, U32 - 2000, ends, U32 - 540, rwnd);
    AckLeaves(s, U32 - 540, rwnd);
    assert Covered(s.sndBuf, U32 - 540) >= 1;
  }

  /** A late copy of an acknowledgement from before the wrap releases a segment that nobody acknowledged. */
  lemma OldAckReleasesUnacked(s: Sender, a: SendEntry, rwnd: nat)
    requires s.sndBuf == [a] && s.sndUna == 5 && a.seqEnd == 100
    ensures ProcessAck(s, U32 - 540, rwnd).sender.sndBuf == []
  {
    ReleaseIsExactIff(s, U32 + 5, [U32 + 100], U32 - 540, rwnd);
    AckLeaves(s, U32 - 540, rwnd);
    assert s.sndBuf[0..] == s.sndBuf;
  }

  /** Two full segments of a connection that started 2000 below 2^32 are such a buffer, and the window
      was open for both. */
  lemma WrapHappens(a: seq<Byte>, b: seq<Byte>, rwnd: nat)
    requires |a| == MSS && |b| == MSS
    ensures var s := SendPacket(InitSender(U32 - 2000), a);
            && s.sndWnd >= MSS * s.inflight
            && ProcessAck(SendPacket(s, b), U32 - 540, rwnd).sender.sndBuf == []
  {
    var s := SendPacket(SendPacket(InitSender(U32 - 2000), a), b);
    WrapReleasesUnacked(s, s.sndBuf[0], s.sndBuf[1], rwnd);
  }

  /** One segment before the wrap is acknowledged, one across it too, a third is sent, and then a
      copy of the first acknowledgement arrives. */
  lemma OldAckHappens(a: seq<Byte>, b: seq<Byte>, d: seq<Byte>, rwnd: nat)
    requires |a| == MSS && |b| == 545 && |d| == 95
    ensures var s := ProcessAck(SendPacket(InitSender(U32 - 2000), a), U32 - 540, rwnd).sender;
            var t := ProcessAck(SendPacket(s, b), 5, rwnd).sender;
            && s.sndBuf == [] == t.sndBuf
            && SendPacket(t, d).sndBuf != []
            && ProcessAck(SendPacket(t, d), U32 - 540, rwnd).sender.sndBuf == []
  {
    var s0 := SendPacket(InitSender(U32 - 2000), a);
    OnlyIsReleased(s0, U32 - 540, rwnd);
    var s := ProcessAck(s0, U32 - 540, rwnd).sender;
    OnlyIsReleased(SendPacket(s, b), 5, rwnd);
    var t := ProcessAck(SendPacket(s, b), 5, rwnd).sender;
    OldAckReleasesUnacked(SendPacket(t, d), SendPacket(t, d).sndBuf[0], rwnd);
  }

  lemma OnlyIsReleased(s: Sender, ack: nat, rwnd: nat)
    requires |s.sndBuf| == 1 && s.sndBuf[0].seqEnd == ack && s.sndUna != ack
    ensures var t := ProcessAck(s, ack, rwnd).sender;
            t.sndBuf == [] && t.sndUna == ack && t.sndNxt == s.sndNxt
  {
    var s1 := s.(ackTime := 0);
    assert PopOne(s1).sndBuf == [];
    assert PopAcked(s1, ack) == PopAcked(PopOne(s1), ack) == PopOne(s1);
  }
}
