/** What the application, and the network, can rely on in every run of a connection. */
module TcpTheorems {
  import opened Common
  import opened RingBuffer
  import opened TcpSender
  import opened TcpReceiver
  import opened TcpConnection

  /** Everything the sending application has written. */
  function Written(c: Conn): seq<Byte> {
    Payloads(c.sent)
  }

  /** Everything the receiving application has read. */
  function BytesRead(c: Conn): seq<Byte>
    requires c.consumed <= |c.receiver.stream|
  {
    c.receiver.stream[..c.consumed]
  }

  /** In every run the bytes read are a prefix of the bytes written: nothing is lost, duplicated,
      reordered or invented on the way, whatever the channel does. */
  lemma ReadsArePrefixOfWrites(c: Conn)
    requires Reachable(c)
    ensures c.consumed <= |c.receiver.stream|
    ensures BytesRead(c) <= c.receiver.stream <= Written(c)
    ensures |c.receiver.stream| == c.receiver.rcvNxt - c.iss
  {
    ReachableInv(c);
    PrefixPayloads(c.sent, c.taken, |c.sent|);
    assert c.sent[..|c.sent|] == c.sent;
    BoundaryCounts(c.iss, c.sent, c.taken);
  }

  /** No acknowledgement runs ahead of the receiver, and the sender does not run ahead of the acknowledgements. */
  lemma AcksNeverLead(c: Conn)
    requires Reachable(c)
    ensures c.sender.sndUna <= c.receiver.rcvNxt <= c.sender.sndNxt
    ensures forall ack :: ack in c.acks ==> ack.number <= c.receiver.rcvNxt
  {
    ReachableInv(c);
    UnaBelowRcvNxt(c.iss, c.sent, c.sender, c.taken);
    AcksBelow(c.iss, c.sent, c.taken, c.acks);
  }

  lemma UnaBelowRcvNxt(iss: nat, sent: seq<Segment>, s: Sender, b: nat)
    requires Chain(iss, sent) && SenderInv(iss, sent, s) && |sent| - |s.sndBuf| <= b <= |sent|
    ensures s.sndUna <= Boundary(iss, sent, b) <= s.sndNxt
  {
    BoundaryGrows(iss, sent, |sent| - |s.sndBuf|, b);
    BoundaryGrows(iss, sent, b, |sent|);
  }

  lemma AcksBelow(iss: nat, sent: seq<Segment>, b: nat, acks: set<Ack>)
    requires Chain(iss, sent) && b <= |sent| && AcksInv(iss, sent, b, acks)
    ensures forall ack :: ack in acks ==> ack.number <= Boundary(iss, sent, b)
  {
    forall ack | ack in acks ensures ack.number <= Boundary(iss, sent, b) {
      var j := AckPosition(iss, sent, b, acks, ack);
      BoundaryGrows(iss, sent, j, b);
    }
  }

  lemma AckPosition(iss: nat, sent: seq<Segment>, b: nat, acks: set<Ack>, ack: Ack) returns (j: nat)
    requires b <= |sent| && AcksInv(iss, sent, b, acks) && ack in acks
    ensures j <= b && ack.number == Boundary(iss, sent, j)
  {
    j :| 0 <= j <= b && ack.number == Boundary(iss, sent, j);
  }

  /** No segment leaves send_buf before the receiver has written it to its ring buffer: what was
      released is in the receiver's stream, and send_buf covers exactly the bytes from snd_una to
      snd_nxt. */
  lemma NothingReleasedEarly(c: Conn)
    requires Reachable(c)
    ensures var a := |c.sent| - |c.sender.sndBuf|;
            && 0 <= a
            && SegmentsOf(c.sender.sndBuf) == c.sent[a..]
            && Payloads(c.sent[..a]) <= c.receiver.stream
            && |Payloads(c.sent[a..])| == c.sender.sndNxt - c.sender.sndUna
    ensures c.sender.inflight == |c.sender.sndBuf| && c.sender.cwnd >= 1
  {
    SenderSide(c);
    PrefixPayloads(c.sent, |c.sent| - |c.sender.sndBuf|, c.taken);
    SenderCovers(c.iss, c.sent, c.sender);
  }

  lemma SenderSide(c: Conn)
    requires Reachable(c)
    ensures Chain(c.iss, c.sent) && SenderInv(c.iss, c.sent, c.sender)
    ensures |c.sent| - |c.sender.sndBuf| <= c.taken <= |c.sent| && c.receiver.stream == Payloads(c.sent[..c.taken])
  {
    ReachableInv(c);
  }

  lemma SenderCovers(iss: nat, sent: seq<Segment>, s: Sender)
    requires Chain(iss, sent) && SenderInv(iss, sent, s)
    ensures var a := |sent| - |s.sndBuf|;
            SegmentsOf(s.sndBuf) == sent[a..] && |Payloads(sent[a..])| == s.sndNxt - s.sndUna
  {
    SuffixPayloads(iss, sent, |sent| - |s.sndBuf|);
  }

  lemma PrefixPayloads(sent: seq<Segment>, a: nat, b: nat)
    requires a <= b <= |sent|
    ensures Payloads(sent[..a]) <= Payloads(sent[..b])
  {
    assert sent[..b] == sent[..a] + sent[a..b];
    PayloadsConcat(sent[..a], sent[a..b]);
  }

  lemma SuffixPayloads(iss: nat, sent: seq<Segment>, a: nat)
    requires Chain(iss, sent) && a <= |sent|
    ensures |Payloads(sent[a..])| == Boundary(iss, sent, |sent|) - Boundary(iss, sent, a)
  {
    assert sent[..|sent|] == sent[..a] + sent[a..];
    PayloadsConcat(sent[..a], sent[a..]);
    BoundaryCounts(iss, sent, a);
    BoundaryCounts(iss, sent, |sent|);
  }

  /** rcv_nxt is the end of the longest contiguous prefix that has arrived: the first `taken`
      segments arrived, the next one did not, and what arrived beyond it waits, strictly sorted,
      with every start beyond rcv_nxt. */
  lemma ReassemblyIsComplete(c: Conn)
    requires Reachable(c)
    ensures c.taken <= |c.sent| && c.receiver.rcvNxt == Boundary(c.iss, c.sent, c.taken)
    ensures forall k :: 0 <= k < c.taken ==> c.sent[k] in c.delivered
    ensures c.taken < |c.sent| ==> c.sent[c.taken] !in c.delivered
    ensures forall i, j :: 0 <= i < j < |c.receiver.ofo| ==> c.receiver.ofo[i].start < c.receiver.ofo[j].start
    ensures forall x :: x in c.receiver.ofo <==> x in c.delivered && x.start >= c.receiver.rcvNxt
    ensures forall x :: x in c.receiver.ofo ==> x.start > c.receiver.rcvNxt
  {
    ReachableInv(c);
    forall x | x in c.receiver.ofo ensures x.start > c.receiver.rcvNxt && x in c.delivered {
      var i :| 0 <= i < |c.receiver.ofo| && c.receiver.ofo[i] == x;
      assert Ahead(c.sent, c.taken + 1, c.receiver.ofo[i]);
      var k :| c.taken + 1 <= k < |c.sent| && c.sent[k] == x;
      BoundaryOrder(c.iss, c.sent, c.taken, k);
    }
    forall x | x in c.delivered && x !in c.receiver.ofo ensures x.start < c.receiver.rcvNxt {
      var k :| 0 <= k < c.taken && c.sent[..c.taken][k] == x;
      BoundaryOrder(c.iss, c.sent, c.taken, k);
    }
    BoundaryOrder(c.iss, c.sent, c.taken, c.taken);
  }

  // ---------------------------------------------------------------- loss recovery

  /** In RECOVER a new acknowledgement below the recovery point leaves send_buf non-empty, and what
      is sent again is the oldest unacknowledged segment. */
  lemma PartialAckResendsOldest(c: Conn, ack: Ack)
    requires Reachable(c) && ack in c.acks
    requires c.sender.nrState == RECOVER
    requires c.sender.sndUna < ack.number < c.sender.recoveryPoint
    ensures var r := ProcessAck(c.sender, ack.number, ack.rwnd);
            && r.sender.sndBuf != []
            && r.resend == Again(r.sender.sndBuf[0].segment)
            && r.sender.sndBuf[0].segment.start == r.sender.sndUna == ack.number
            && r.sender.nrState == RECOVER
  {
    ReachableInv(c);
    var j := AckPosition(c.iss, c.sent, c.taken, c.acks, ack);
    PartialAckSender(c.iss, c.sent, c.sender, j, ack.rwnd);
  }

  lemma PartialAckSender(iss: nat, sent: seq<Segment>, s: Sender, j: nat, rwnd: nat)
    requires Chain(iss, sent) && SenderInv(iss, sent, s) && j <= |sent|
    requires s.nrState == RECOVER && s.sndUna < Boundary(iss, sent, j) < s.recoveryPoint
    ensures var r := ProcessAck(s, Boundary(iss, sent, j), rwnd);
            && r.sender.sndBuf != []
            && r.resend == Again(r.sender.sndBuf[0].segment)
            && r.sender.sndBuf[0].segment.start == r.sender.sndUna == Boundary(iss, sent, j)
            && r.sender.nrState == RECOVER
  {
    var a := |sent| - |s.sndBuf|;
    OtherAckEffect(iss, sent, s, j);
    BoundaryOrder(iss, sent, a, j);
    BoundaryOrder(iss, sent, j, |sent|);
    BoundaryOrder(iss, sent, j, j);
    var t := OtherAck(s, Boundary(iss, sent, j)).sender;
    assert t.sndBuf[0] == s.sndBuf[j - a];
  }

  /** Recovery ends exactly when an acknowledgement other than a duplicate reaches the snd_nxt that
      was recorded when it began. */
  lemma RecoveryEndsAtRecoveryPoint(c: Conn, ack: Ack)
    requires Reachable(c) && ack in c.acks
    requires c.sender.nrState != OPEN && ack.number != c.sender.sndUna
    ensures ProcessAck(c.sender, ack.number, ack.rwnd).sender.nrState == OPEN
            <==> c.sender.recoveryPoint <= ack.number
  {
    ReachableInv(c);
    var j := AckPosition(c.iss, c.sent, c.taken, c.acks, ack);
    OtherAckEffect(c.iss, c.sent, c.sender, j);
  }

  /** Handling an acknowledgement reads past the end of send_buf exactly when, in RECOVER, it is
      older than snd_una and nothing is outstanding. */
  lemma PastTheEndIff(c: Conn, ack: Ack)
    requires Reachable(c) && ack in c.acks
    ensures ProcessAck(c.sender, ack.number, ack.rwnd).resend == PastTheEnd
            <==> c.sender.nrState == RECOVER && ack.number < c.sender.sndUna && c.sender.sndBuf == []
  {
    ReachableInv(c);
    var j := AckPosition(c.iss, c.sent, c.taken, c.acks, ack);
    PastTheEndSender(c.iss, c.sent, c.sender, j, ack.rwnd);
  }

  lemma PastTheEndSender(iss: nat, sent: seq<Segment>, s: Sender, j: nat, rwnd: nat)
    requires Chain(iss, sent) && SenderInv(iss, sent, s) && j <= |sent|
    ensures ProcessAck(s, Boundary(iss, sent, j), rwnd).resend == PastTheEnd
            <==> s.nrState == RECOVER && Boundary(iss, sent, j) < s.sndUna && s.sndBuf == []
  {
    var ack, a := Boundary(iss, sent, j), |sent| - |s.sndBuf|;
    if ack != s.sndUna {
      var t := OtherAck(s, ack).sender;
      OtherAckEffect(iss, sent, s, j);
      BoundaryOrder(iss, sent, j, a);
      BoundaryOrder(iss, sent, j, |sent|);
      assert OtherAck(s, ack).resend == PastTheEnd
        <==> s.nrState == RECOVER && s.recoveryPoint > ack && t.sndBuf == [];
    }
  }

  const X := Segment(0, [0])
  const Y := Segment(1, [0])
  const ACK_X := Ack(1, TCP_DEFAULT_WINDOW - 1)
  const ACK_XY := Ack(2, TCP_DEFAULT_WINDOW - 2)

  /** Two one-byte segments have arrived and are acknowledged by two acknowledgements, and the
      sender is in state `s`. */
  function TwoSegments(s: Sender): Conn {
    Conn(0, s, Receiver(2, [], [0, 0]), 0, {X, Y}, {ACK_X, ACK_XY}, [X, Y], {X, Y}, 2, Whole)
  }

  lemma ExecOneMore(iss: nat, evs: seq<Event>, c: Conn, ev: Event)
    requires Exec(iss, evs) == Some(c) && Enabled(c, ev)
    ensures Exec(iss, evs + [ev]) == Some(Next(c, ev))
  {
    assert (evs + [ev])[..|evs|] == evs;
  }

  /** tcp_sock_write does not wait before the next segment. */
  predicate WindowOpen(s: Sender) {
    s.sndWnd >= MSS * s.inflight
  }

  /** A run to `c` in which every segment was sent with the window open. */
  ghost predicate PoliteRun(iss: nat, evs: seq<Event>, c: Conn) {
    && Exec(iss, evs) == Some(c)
    && forall k :: 0 <= k < |evs| && evs[k].AppSend? ==>
         Exec(iss, evs[..k]).Some? && WindowOpen(Exec(iss, evs[..k]).value.sender)
  }

  lemma PoliteOneMore(iss: nat, evs: seq<Event>, c: Conn, ev: Event)
    requires PoliteRun(iss, evs, c) && Enabled(c, ev)
    requires ev.AppSend? ==> WindowOpen(c.sender)
    ensures PoliteRun(iss, evs + [ev], Next(c, ev))
  {
    ExecOneMore(iss, evs, c, ev);
    assert forall k :: 0 <= k <= |evs| ==> (evs + [ev])[..k] == evs[..k];
    assert evs[..|evs|] == evs;
  }

  /** The sender after both acknowledgements are in and `dups` more copies of the second. */
  function AfterDuplicates(dups: nat): Sender
    requires dups <= 3
  {
    Sender(2, 2, 4 * MSS, TCP_DEFAULT_WINDOW - 2, 4, 0,
           if dups == 3 then 2 else TCP_DEFAULT_WINDOW / MSS,
           if dups == 3 then RECOVER else OPEN, dups, if dups == 3 then 2 else 0, 0, [])
  }

  lemma BothArrive() returns (evs: seq<Event>, s: Sender)
    ensures PoliteRun(0, evs, TwoSegments(s))
    ensures s == SendPacket(SendPacket(InitSender(0), [0]), [0])
  {
    var c0 := InitConn(0);
    var c1 := Next(c0, AppSend([0]));
    var c2 := Next(c1, AppSend([0]));
    s := c2.sender;
    assert c2 == c0.(sender := s, sent := [X, Y], segments := {X, Y});
    assert Receive(c2.receiver, X) == Receiver(1, [], [0]);
    var c3 := Next(c2, ArriveSegment(X, 0));
    assert c3 == c2.(receiver := Receiver(1, [], [0]), acks := {ACK_X}, delivered := {X}, taken := 1);
    assert Receive(c3.receiver, Y) == Receiver(2, [], [0, 0]);
    var c4 := Next(c3, ArriveSegment(Y, 0));
    assert c4 == TwoSegments(s);
    PoliteOneMore(0, [], c0, AppSend([0]));
    PoliteOneMore(0, [] + [AppSend([0])], c1, AppSend([0]));
    evs := [] + [AppSend([0])] + [AppSend([0])];
    PoliteOneMore(0, evs, c2, ArriveSegment(X, 0));
    PoliteOneMore(0, evs + [ArriveSegment(X, 0)], c3, ArriveSegment(Y, 0));
    evs := evs + [ArriveSegment(X, 0)] + [ArriveSegment(Y, 0)];
  }

  const E_X := SendEntry(X, 1, 1, TCP_RETRANS_INTERVAL_INITIAL)
  const E_Y := SendEntry(Y, 2, 1, TCP_RETRANS_INTERVAL_INITIAL)

  /** The sender while it releases X and then Y. */
  function Releasing(una: nat, cwnd: nat, buf: seq<SendEntry>): Sender {
    Sender(una, 2, 2 * MSS - 2, TCP_DEFAULT_WINDOW, cwnd, 0, TCP_DEFAULT_WINDOW / MSS, OPEN, 0, 0, |buf|, buf)
  }

  lemma FirstFullAck(s: Sender)
    requires s == SendPacket(SendPacket(InitSender(0), [0]), [0])
    ensures ProcessAck(s, 2, TCP_DEFAULT_WINDOW - 2) == AckResult(AfterDuplicates(0), Nothing)
  {
    assert s == Releasing(0, 2, [E_X, E_Y]);
    ReleaseBoth();
  }

  lemma ReleaseBoth()
    ensures PopAcked(Releasing(0, 2, [E_X, E_Y]), 2) == Releasing(2, 4, [])
  {
    assert PopOne(Releasing(0, 2, [E_X, E_Y])) == Releasing(1, 3, [E_Y]);
    assert PopOne(Releasing(1, 3, [E_Y])) == Releasing(2, 4, []);
    assert PopAcked(Releasing(2, 4, []), 2) == Releasing(2, 4, []);
  }

  lemma OneDuplicate(dups: nat)
    requires dups < 3
    ensures ProcessAck(AfterDuplicates(dups), 2, TCP_DEFAULT_WINDOW - 2) ==
            AckResult(AfterDuplicates(dups + 1), Nothing)
  {
  }

  lemma AckArrives(evs: seq<Event>, s: Sender, t: Sender)
    requires PoliteRun(0, evs, TwoSegments(s))
    requires ProcessAck(s, 2, TCP_DEFAULT_WINDOW - 2) == AckResult(t, Nothing)
    ensures PoliteRun(0, evs + [ArriveAck(ACK_XY)], TwoSegments(t))
  {
    var c := TwoSegments(s);
    PoliteOneMore(0, evs, c, ArriveAck(ACK_XY));
    assert Next(c, ArriveAck(ACK_XY)) == TwoSegments(t) by {
      assert c.segments + {} == c.segments;
    }
  }

  lemma {:induction false} Duplicates(evs: seq<Event>, s: Sender, dups: nat) returns (all: seq<Event>)
    requires PoliteRun(0, evs, TwoSegments(s)) && dups <= 3
    requires s == SendPacket(SendPacket(InitSender(0), [0]), [0])
    ensures PoliteRun(0, all, TwoSegments(AfterDuplicates(dups)))
  {
    if dups == 0 {
      FirstFullAck(s);
      AckArrives(evs, s, AfterDuplicates(0));
      all := evs + [ArriveAck(ACK_XY)];
    } else {
      var before := Duplicates(evs, s, dups - 1);
      OneDuplicate(dups - 1);
      AckArrives(before, AfterDuplicates(dups - 1), AfterDuplicates(dups));
      all := before + [ArriveAck(ACK_XY)];
    }
  }

  /** Such a state is reachable, with every segment sent as the write loop sends: with nothing
      outstanding, three more copies of the last acknowledgement enter RECOVER, and an older
      acknowledgement overtaken by them does the rest. */
  lemma PastTheEndHappens() returns (evs: seq<Event>, c: Conn)
    ensures PoliteRun(0, evs, c) && ACK_X in c.acks
    ensures ProcessAck(c.sender, ACK_X.number, ACK_X.rwnd).resend == PastTheEnd
  {
    var s;
    evs, s := BothArrive();
    evs := Duplicates(evs, s, 3);
    c := TwoSegments(AfterDuplicates(3));
    PastTheEndIff(c, ACK_X);
  }
}
