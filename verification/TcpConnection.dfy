/**
 One direction of an established connection: sender and receiver joined by a
 channel that may lose, delay, duplicate and reorder data segments and
 acknowledgements. What was once sent stays deliverable for ever.
 */
module TcpConnection {
  import opened Common
  import opened RingBuffer
  import opened TcpSender
  import opened TcpReceiver

  /** Besides the two control blocks and the channel the state carries history: `sent`, all
      segments in the order they were first sent; `delivered`, those that arrived and were not lost
      by the list; `taken`, how many of `sent` the receiver has written to its buffer. */
  datatype Conn = Conn(
    iss: nat, sender: Sender, receiver: Receiver, consumed: nat,
    segments: set<Segment>, acks: set<Ack>,
    sent: seq<Segment>, delivered: set<Segment>, taken: nat, list: OfoLinks)

  /** The links of rcv_ofo_buf: all right; the first entry points back to a lost one; the head points
      at an entry that was freed, which happens when that first entry is drained. */
  datatype OfoLinks = Whole | Loose | Freed

  datatype Event =
    | AppSend(data: seq<Byte>)
    | TimerScan
    | ArriveSegment(segment: Segment, consumedAfter: nat)
    | ArriveAck(ack: Ack)
    | AppRead(n: nat)

  function InitConn(iss: nat): Conn {
    Conn(iss, InitSender(iss), Receiver(iss, [], []), 0, {}, {}, [], {}, 0, Whole)
  }

  /** What the arrival of a segment does to the links. */
  function LinksAfter(list: OfoLinks, r: Receiver, segment: Segment): OfoLinks {
    if IsLost(r, segment) then Loose
    else if segment.start == r.rcvNxt && list == Loose && Drainable(r.ofo, segment.SeqEnd()) > 0 then Freed
    else list
  }

  /** Sequence numbers do not wrap; the reader may take bytes while the receiver waits for room; and no
      segment is walked past or into a list whose head points at a freed entry. */
  predicate Enabled(c: Conn, ev: Event) {
    match ev
    case AppSend(data) => 0 < |data| <= MSS && c.sender.sndNxt + |data| < U32
    case TimerScan => true
    case ArriveSegment(segment, k) =>
      segment in c.segments
      && (segment.start >= c.receiver.rcvNxt ==> c.list != Freed)
      && c.consumed <= k <= |Receive(c.receiver, segment).stream|
      && |Receive(c.receiver, segment).stream| - k <= TCP_DEFAULT_WINDOW
    case ArriveAck(ack) => ack in c.acks && ProcessAck(c.sender, ack.number, ack.rwnd).resend != PastTheEnd
    case AppRead(n) => c.consumed + n <= |c.receiver.stream|
  }

  function Resent(r: Resend): set<Segment> {
    if r.Again? then {r.segment} else {}
  }

  function Next(c: Conn, ev: Event): Conn
    requires Enabled(c, ev)
  {
    match ev
    case AppSend(data) =>
      var segment := Segment(c.sender.sndNxt, data);
      c.(sender := SendPacket(c.sender, data), sent := c.sent + [segment], segments := c.segments + {segment})
    case TimerScan =>
      var r := Scan(c.sender, |c.sender.sndBuf|);
      c.(sender := r.sender, segments := c.segments + set x | x in r.resent)
    case ArriveSegment(segment, k) =>
      var r := Receive(c.receiver, segment);
      c.(receiver := r, consumed := k,
         acks := c.acks + {Ack(r.rcvNxt, TCP_DEFAULT_WINDOW - (|r.stream| - k))},
         delivered := c.delivered + if IsLost(c.receiver, segment) then {} else {segment},
         list := LinksAfter(c.list, c.receiver, segment),
         taken := c.taken + if segment.start == c.receiver.rcvNxt
                            then 1 + Drainable(c.receiver.ofo, segment.SeqEnd()) else 0)
    case ArriveAck(ack) =>
      var r := ProcessAck(c.sender, ack.number, ack.rwnd);
      c.(sender := r.sender, segments := c.segments + Resent(r.resend))
    case AppRead(n) => c.(consumed := c.consumed + n)
  }

  function Exec(iss: nat, evs: seq<Event>): Option<Conn> {
    if evs == [] then Some(InitConn(iss))
    else
      match Exec(iss, evs[..|evs| - 1])
      case None => None
      case Some(c) => if Enabled(c, evs[|evs| - 1]) then Some(Next(c, evs[|evs| - 1])) else None
  }

  ghost predicate Reachable(c: Conn) {
    exists iss: nat, evs :: iss < U32 && Exec(iss, evs) == Some(c)
  }

  // ---------------------------------------------------------------- segmentation

  /** Where the first `k` segments end. */
  function Boundary(iss: nat, sent: seq<Segment>, k: nat): nat
    requires k <= |sent|
  {
    if k == 0 then iss else sent[k - 1].start + |sent[k - 1].payload|
  }

  ghost predicate Follows(iss: nat, sent: seq<Segment>, k: nat)
    requires k < |sent|
  {
    sent[k].start == Boundary(iss, sent, k) && 0 < |sent[k].payload| <= MSS
  }

  /** `sent` cuts one byte stream into consecutive non-empty segments. */
  ghost predicate Chain(iss: nat, sent: seq<Segment>) {
    && Boundary(iss, sent, |sent|) < U32
    && forall k {:trigger Follows(iss, sent, k)} :: 0 <= k < |sent| ==> Follows(iss, sent, k)
  }

  lemma {:induction false} BoundaryGrows(iss: nat, sent: seq<Segment>, j: nat, k: nat)
    requires Chain(iss, sent) && j <= k <= |sent|
    ensures Boundary(iss, sent, j) <= Boundary(iss, sent, k)
    ensures j < k ==> Boundary(iss, sent, j) < Boundary(iss, sent, k)
    decreases k - j
  {
    if j < k {
      assert Follows(iss, sent, j);
      BoundaryGrows(iss, sent, j + 1, k);
    }
  }

  /** Boundaries determine positions. */
  lemma BoundaryOrder(iss: nat, sent: seq<Segment>, j: nat, k: nat)
    requires Chain(iss, sent) && j <= |sent| && k <= |sent|
    ensures j < k <==> Boundary(iss, sent, j) < Boundary(iss, sent, k)
    ensures j == k <==> Boundary(iss, sent, j) == Boundary(iss, sent, k)
    ensures Boundary(iss, sent, k) < U32
    ensures k < |sent| ==> sent[k].start == Boundary(iss, sent, k)
  {
    BoundaryGrows(iss, sent, k, |sent|);
    if j <= k {
      BoundaryGrows(iss, sent, j, k);
    } else {
      BoundaryGrows(iss, sent, k, j);
    }
    assert k < |sent| ==> Follows(iss, sent, k);
  }

  lemma SeqEndIsBoundary(iss: nat, sent: seq<Segment>, k: nat)
    requires Chain(iss, sent) && k < |sent|
    ensures sent[k].SeqEnd() == Boundary(iss, sent, k + 1)
  {
    BoundaryOrder(iss, sent, k, k + 1);
  }

  /** A boundary counts the bytes before it. */
  lemma {:induction false} BoundaryCounts(iss: nat, sent: seq<Segment>, k: nat)
    requires Chain(iss, sent) && k <= |sent|
    ensures Boundary(iss, sent, k) == iss + |Payloads(sent[..k])|
  {
    if k > 0 {
      BoundaryCounts(iss, sent, k - 1);
      assert Follows(iss, sent, k - 1);
      PayloadsSnoc(sent, k - 1);
    }
  }

  lemma ChainExtends(iss: nat, sent: seq<Segment>, data: seq<Byte>)
    requires Chain(iss, sent) && 0 < |data| <= MSS && Boundary(iss, sent, |sent|) + |data| < U32
    ensures var more := sent + [Segment(Boundary(iss, sent, |sent|), data)];
            && Chain(iss, more)
            && (forall k :: 0 <= k <= |sent| ==> Boundary(iss, more, k) == Boundary(iss, sent, k))
            && Boundary(iss, more, |more|) == Boundary(iss, sent, |sent|) + |data|
  {
    var more := sent + [Segment(Boundary(iss, sent, |sent|), data)];
    forall k | 0 <= k < |more| ensures Follows(iss, more, k) {
      assert k < |sent| ==> Follows(iss, sent, k);
    }
  }

  // ---------------------------------------------------------------- the invariant

  /** send_buf holds exactly the segments from snd_una to snd_nxt. */
  ghost predicate SenderInv(iss: nat, sent: seq<Segment>, s: Sender) {
    && |s.sndBuf| <= |sent|
    && s.sndNxt == Boundary(iss, sent, |sent|)
    && s.sndUna == Boundary(iss, sent, |sent| - |s.sndBuf|)
    && s.inflight == |s.sndBuf|
    && s.cwnd >= 1
    && (s.nrState != OPEN ==> s.sndUna <= s.recoveryPoint)
    && s.recoveryPoint <= s.sndNxt
    && forall i :: 0 <= i < |s.sndBuf| ==>
         && s.sndBuf[i].segment == sent[|sent| - |s.sndBuf| + i]
         && s.sndBuf[i].seqEnd == Boundary(iss, sent, |sent| - |s.sndBuf| + i + 1)
  }

  ghost predicate Ahead(sent: seq<Segment>, b: nat, segment: Segment) {
    exists k :: b <= k < |sent| && sent[k] == segment
  }

  ghost predicate Sorted(ofo: seq<Segment>) {
    forall i, j :: 0 <= i < j < |ofo| ==> ofo[i].start < ofo[j].start
  }

  /** `ofo` holds segments of `sent` from position `b` on, in order. */
  ghost predicate Waiting(sent: seq<Segment>, b: nat, ofo: seq<Segment>) {
    Sorted(ofo) && forall i :: 0 <= i < |ofo| ==> Ahead(sent, b, ofo[i])
  }

  /** The stream is the first `b` segments; later ones that arrived wait in order. */
  ghost predicate ReceiverInv(iss: nat, sent: seq<Segment>, b: nat, r: Receiver) {
    && b <= |sent|
    && r.rcvNxt == Boundary(iss, sent, b)
    && r.stream == Payloads(sent[..b])
    && Waiting(sent, b + 1, r.ofo)
  }

  ghost predicate AcksInv(iss: nat, sent: seq<Segment>, b: nat, acks: set<Ack>)
    requires b <= |sent|
  {
    forall ack :: ack in acks ==> exists j :: 0 <= j <= b && ack.number == Boundary(iss, sent, j)
  }

  ghost predicate ArrivalsInv(sent: seq<Segment>, b: nat, ofo: seq<Segment>, delivered: set<Segment>)
    requires b <= |sent|
  {
    && (forall k :: 0 <= k < b ==> sent[k] in delivered)
    && (forall x :: x in ofo ==> x in delivered)
    && forall x :: x in delivered ==> x in sent[..b] || x in ofo
  }

  ghost predicate Inv(c: Conn) {
    && Chain(c.iss, c.sent)
    && SenderInv(c.iss, c.sent, c.sender)
    && ReceiverInv(c.iss, c.sent, c.taken, c.receiver)
    && AcksInv(c.iss, c.sent, c.taken, c.acks)
    && ArrivalsInv(c.sent, c.taken, c.receiver.ofo, c.delivered)
    && (forall x :: x in c.segments <==> x in c.sent)
    && (c.list == Loose ==> c.receiver.ofo != [])
    && |c.sent| - |c.sender.sndBuf| <= c.taken
    && c.consumed <= |c.receiver.stream|
    && |c.receiver.stream| - c.consumed <= TCP_DEFAULT_WINDOW
  }

  // ---------------------------------------------------------------- the sender's steps

  lemma SendKeepsSender(iss: nat, sent: seq<Segment>, s: Sender, data: seq<Byte>)
    requires Chain(iss, sent) && SenderInv(iss, sent, s)
    requires 0 < |data| <= MSS && s.sndNxt + |data| < U32
    ensures Chain(iss, sent + [Segment(s.sndNxt, data)])
    ensures SenderInv(iss, sent + [Segment(s.sndNxt, data)], SendPacket(s, data))
    ensures forall k :: 0 <= k <= |sent| ==>
              Boundary(iss, sent + [Segment(s.sndNxt, data)], k) == Boundary(iss, sent, k)
  {
    ChainExtends(iss, sent, data);
  }

  lemma {:induction false} ScanKeepsSender(iss: nat, sent: seq<Segment>, s: Sender, n: nat)
    requires Chain(iss, sent) && SenderInv(iss, sent, s) && n <= |s.sndBuf|
    ensures SenderInv(iss, sent, Scan(s, n).sender)
    ensures SegmentsOf(Scan(s, n).sender.sndBuf) == SegmentsOf(s.sndBuf)
    ensures forall x :: x in Scan(s, n).resent ==> x in SegmentsOf(s.sndBuf)
  {
    if n > 0 {
      ScanKeepsSender(iss, sent, s, n - 1);
      ScanEntryKeepsSender(iss, sent, Scan(s, n - 1).sender, n - 1);
    }
  }

  /** The timer touches retry counters, timeouts and the congestion state only. */
  lemma ScanEntryShape(s: Sender, i: nat)
    requires i < |s.sndBuf|
    ensures var t := ScanEntry(s, i).sender;
            && t.sndUna == s.sndUna && t.sndNxt == s.sndNxt && t.inflight == s.inflight
            && |t.sndBuf| == |s.sndBuf|
            && (forall k :: 0 <= k < |s.sndBuf| ==>
                  t.sndBuf[k].segment == s.sndBuf[k].segment && t.sndBuf[k].seqEnd == s.sndBuf[k].seqEnd)
            && (s.cwnd >= 1 ==> t.cwnd >= 1)
            && (|| t.recoveryPoint == s.sndNxt
                || (t.recoveryPoint == s.recoveryPoint && (t.nrState != OPEN ==> s.nrState != OPEN)))
    ensures forall x :: x in ScanEntry(s, i).resent ==> x == s.sndBuf[i].segment
  {
  }

  lemma ScanEntryKeepsSender(iss: nat, sent: seq<Segment>, s: Sender, i: nat)
    requires Chain(iss, sent) && SenderInv(iss, sent, s) && i < |s.sndBuf|
    ensures SenderInv(iss, sent, ScanEntry(s, i).sender)
    ensures SegmentsOf(ScanEntry(s, i).sender.sndBuf) == SegmentsOf(s.sndBuf)
    ensures forall x :: x in ScanEntry(s, i).resent ==> x in SegmentsOf(s.sndBuf)
  {
    assert s.sndBuf[i].segment == SegmentsOf(s.sndBuf)[i];
    BoundaryWithin(iss, sent, s);
    ScanEntryShape(s, i);
  }

  lemma BoundaryWithin(iss: nat, sent: seq<Segment>, s: Sender)
    requires Chain(iss, sent) && SenderInv(iss, sent, s)
    ensures s.sndUna <= s.sndNxt
  {
    BoundaryGrows(iss, sent, |sent| - |s.sndBuf|, |sent|);
  }

  lemma SndBufInSent(iss: nat, sent: seq<Segment>, s: Sender, x: Segment)
    requires SenderInv(iss, sent, s) && x in SegmentsOf(s.sndBuf)
    ensures x in sent
  {
    var i :| 0 <= i < |s.sndBuf| && SegmentsOf(s.sndBuf)[i] == x;
    assert s.sndBuf[i].segment == x;
  }

  /** A cumulative acknowledgement of boundary `j` covers the entries up to `j` and no others. */
  lemma CoveredIsExact(iss: nat, sent: seq<Segment>, s: Sender, j: nat)
    requires Chain(iss, sent) && SenderInv(iss, sent, s) && j <= |sent|
    ensures var a := |sent| - |s.sndBuf|;
            Covered(s.sndBuf, Boundary(iss, sent, j)) == if j <= a then 0 else j - a
  {
    var a, n := |sent| - |s.sndBuf|, Covered(s.sndBuf, Boundary(iss, sent, j));
    if n > 0 {
      assert s.sndBuf[n - 1].seqEnd == Boundary(iss, sent, a + (n - 1) + 1);
      BoundaryOrder(iss, sent, j, a + n);
    }
    if n < |s.sndBuf| {
      BoundaryOrder(iss, sent, j, a + n + 1);
    }
  }

  /** What any acknowledgement of boundary `j` does to send_buf, snd_una and the recovery state. */
  ghost predicate AckEffect(iss: nat, sent: seq<Segment>, s: Sender, j: nat, t: Sender)
    requires j <= |sent|
  {
    && t.sndNxt == s.sndNxt && t.recoveryPoint == s.recoveryPoint && t.cwnd >= 1
    && |t.sndBuf| == (if j <= |sent| - |s.sndBuf| then |s.sndBuf| else |sent| - j)
    && |t.sndBuf| <= |s.sndBuf| && t.sndBuf == s.sndBuf[|s.sndBuf| - |t.sndBuf|..]
    && t.inflight == |t.sndBuf|
    && t.sndUna == (if |t.sndBuf| == |s.sndBuf| then s.sndUna else Boundary(iss, sent, j))
    && t.nrState == (if s.nrState != OPEN && s.recoveryPoint <= Boundary(iss, sent, j) then OPEN else s.nrState)
  }

  lemma OtherAckEffect(iss: nat, sent: seq<Segment>, s: Sender, j: nat)
    requires Chain(iss, sent) && SenderInv(iss, sent, s) && j <= |sent|
    ensures AckEffect(iss, sent, s, j, OtherAck(s, Boundary(iss, sent, j)).sender)
  {
    var ack := Boundary(iss, sent, j);
    var s1 := s.(ackTime := 0);
    CoveredIsExact(iss, sent, s, j);
    PopAckedReleases(s1, ack);
    PopAckedMovesUna(s1, ack);
    PopAckedKeeps(s1, ack);
    OtherAckSender(s, ack);
  }

  lemma AckEffectKeepsSender(iss: nat, sent: seq<Segment>, s: Sender, j: nat, t: Sender)
    requires Chain(iss, sent) && SenderInv(iss, sent, s) && j <= |sent| && AckEffect(iss, sent, s, j, t)
    ensures SenderInv(iss, sent, t)
  {
    var a, a' := |sent| - |s.sndBuf|, |sent| - |t.sndBuf|;
    if a' == a {
      assert t.sndBuf == s.sndBuf;
    } else {
      assert a' == j;
      forall i | 0 <= i < |t.sndBuf|
        ensures t.sndBuf[i].segment == sent[a' + i] && t.sndBuf[i].seqEnd == Boundary(iss, sent, a' + i + 1)
      {
        var k := a' - a + i;
        assert t.sndBuf[i] == s.sndBuf[k] && a + k == a' + i;
      }
      BoundaryGrows(iss, sent, a, a');
    }
  }

  lemma DuplicateAckKeepsSender(iss: nat, sent: seq<Segment>, s: Sender)
    requires Chain(iss, sent) && SenderInv(iss, sent, s)
    ensures SenderInv(iss, sent, DuplicateAck(s).sender) && DuplicateAck(s).sender.sndBuf == s.sndBuf
  {
    BoundaryWithin(iss, sent, s);
  }

  lemma WindowKeepsSender(iss: nat, sent: seq<Segment>, s: Sender, ack: nat, rwnd: nat)
    requires SenderInv(iss, sent, s)
    ensures SenderInv(iss, sent, UpdateWindow(s, ack, rwnd)) && UpdateWindow(s, ack, rwnd).sndBuf == s.sndBuf
  {
  }

  lemma AckKeepsSender(iss: nat, sent: seq<Segment>, s: Sender, j: nat, rwnd: nat)
    requires Chain(iss, sent) && SenderInv(iss, sent, s) && j <= |sent|
    ensures var t := ProcessAck(s, Boundary(iss, sent, j), rwnd).sender;
            && SenderInv(iss, sent, t)
            && |t.sndBuf| == if j <= |sent| - |s.sndBuf| then |s.sndBuf| else |sent| - j
  {
    var ack := Boundary(iss, sent, j);
    var r := if ack == s.sndUna then DuplicateAck(s) else OtherAck(s, ack);
    if ack == s.sndUna {
      BoundaryOrder(iss, sent, j, |sent| - |s.sndBuf|);
      DuplicateAckKeepsSender(iss, sent, s);
    } else {
      OtherAckEffect(iss, sent, s, j);
      AckEffectKeepsSender(iss, sent, s, j, r.sender);
    }
    WindowKeepsSender(iss, sent, r.sender, ack, rwnd);
  }

  // ---------------------------------------------------------------- the receiver's steps

  /** Draining `ofo` from boundary `b` takes the `n` segments that follow there and leaves a gap. */
  ghost predicate DrainsTo(iss: nat, sent: seq<Segment>, ofo: seq<Segment>, b: nat, n: nat)
    requires b <= |sent|
  {
    && n <= |ofo| && b + n <= |sent|
    && DrainEnd(ofo, Boundary(iss, sent, b)) == Boundary(iss, sent, b + n)
    && (forall i :: 0 <= i < n ==> ofo[i] == sent[b + i])
    && Waiting(sent, b + n + 1, ofo[n..])
  }

  /** Draining a list of later segments takes exactly the consecutive run from boundary `b`. */
  lemma {:induction false} DrainIsExact(iss: nat, sent: seq<Segment>, ofo: seq<Segment>, b: nat)
    requires Chain(iss, sent) && b <= |sent| && Waiting(sent, b, ofo)
    ensures DrainsTo(iss, sent, ofo, b, Drainable(ofo, Boundary(iss, sent, b)))
    decreases |ofo|
  {
    if ofo != [] {
      FirstWaiting(iss, sent, ofo, b);
      if Boundary(iss, sent, b) < ofo[0].start {
        assert ofo[0..] == ofo;
      } else {
        SeqEndIsBoundary(iss, sent, b);
        DrainIsExact(iss, sent, ofo[1..], b + 1);
        DrainsOneMore(iss, sent, ofo, b, Drainable(ofo[1..], Boundary(iss, sent, b + 1)));
      }
    }
  }

  lemma DrainsOneMore(iss: nat, sent: seq<Segment>, ofo: seq<Segment>, b: nat, n: nat)
    requires b < |sent| && ofo != [] && ofo[0] == sent[b] && DrainsTo(iss, sent, ofo[1..], b + 1, n)
    requires ofo[0].start <= Boundary(iss, sent, b) && ofo[0].SeqEnd() == Boundary(iss, sent, b + 1)
    ensures DrainsTo(iss, sent, ofo, b, n + 1)
  {
    ConsRun(sent, ofo, b, n);
  }

  lemma ConsRun(sent: seq<Segment>, ofo: seq<Segment>, b: nat, n: nat)
    requires n < |ofo| && b + 1 + n <= |sent| && ofo[0] == sent[b]
    requires forall i :: 0 <= i < n ==> ofo[1..][i] == sent[b + 1 + i]
    ensures forall i :: 0 <= i < n + 1 ==> ofo[i] == sent[b + i]
    ensures ofo[n + 1..] == ofo[1..][n..]
  {
    forall i | 0 <= i < n + 1 ensures ofo[i] == sent[b + i] {
      assert i > 0 ==> ofo[i] == ofo[1..][i - 1];
    }
  }

  /** Either all that waits is beyond boundary `b`, or the first of it starts there. */
  lemma FirstWaiting(iss: nat, sent: seq<Segment>, ofo: seq<Segment>, b: nat)
    requires Chain(iss, sent) && b <= |sent| && Waiting(sent, b, ofo) && ofo != []
    ensures Boundary(iss, sent, b) < ofo[0].start ==> Waiting(sent, b + 1, ofo)
    ensures Boundary(iss, sent, b) >= ofo[0].start ==>
              b < |sent| && ofo[0] == sent[b] && Waiting(sent, b + 1, ofo[1..])
  {
    assert Ahead(sent, b, ofo[0]);
    var k :| b <= k < |sent| && sent[k] == ofo[0];
    BoundaryOrder(iss, sent, b, k);
    if Boundary(iss, sent, b) < ofo[0].start {
      forall i | 0 <= i < |ofo| ensures Ahead(sent, b + 1, ofo[i]) {
        LaterIsAhead(iss, sent, b, ofo[i]);
      }
    } else {
      RestIsWaiting(iss, sent, ofo, b);
    }
  }

  lemma RestIsWaiting(iss: nat, sent: seq<Segment>, ofo: seq<Segment>, b: nat)
    requires Chain(iss, sent) && b < |sent| && Waiting(sent, b, ofo) && ofo != [] && ofo[0] == sent[b]
    ensures Waiting(sent, b + 1, ofo[1..])
  {
    BoundaryOrder(iss, sent, b, b);
    forall i | 0 <= i < |ofo[1..]| ensures Ahead(sent, b + 1, ofo[1..][i]) {
      LaterIsAhead(iss, sent, b, ofo[i + 1]);
    }
  }

  lemma RunPayloads(sent: seq<Segment>, ofo: seq<Segment>, b: nat, n: nat)
    requires n <= |ofo| && b + n <= |sent|
    requires forall i :: 0 <= i < n ==> ofo[i] == sent[b + i]
    ensures Payloads(sent[..b]) + Payloads(ofo[..n]) == Payloads(sent[..b + n])
  {
    assert ofo[..n] == sent[b..b + n];
    assert sent[..b + n] == sent[..b] + sent[b..b + n];
    PayloadsConcat(sent[..b], sent[b..b + n]);
  }

  lemma LaterIsAhead(iss: nat, sent: seq<Segment>, b: nat, x: Segment)
    requires Chain(iss, sent) && b <= |sent| && Ahead(sent, b, x) && x.start > Boundary(iss, sent, b)
    ensures Ahead(sent, b + 1, x)
  {
    var k :| b <= k < |sent| && sent[k] == x;
    BoundaryOrder(iss, sent, b, k);
  }

  lemma {:induction false} InsertKeepsSorted(ofo: seq<Segment>, x: Segment)
    requires Sorted(ofo)
    ensures Sorted(SortedInsert(ofo, x))
    ensures forall y :: y in SortedInsert(ofo, x) ==> y in ofo || y == x
    ensures forall y :: y in ofo ==> y in SortedInsert(ofo, x)
    ensures x in SortedInsert(ofo, x) || exists y :: y in ofo && y.start == x.start
  {
    if ofo != [] {
      InsertKeepsSorted(ofo[1..], x);
      assert forall y :: y in ofo <==> y == ofo[0] || y in ofo[1..];
      if x.start > ofo[0].start {
        var rest := SortedInsert(ofo[1..], x);
        forall j | 0 <= j < |rest| ensures ofo[0].start < rest[j].start {
          assert rest[j] in rest;
        }
      }
    }
  }

  /** The bytes of segment `b` and of the run behind it. */
  lemma DrainedStream(sent: seq<Segment>, b: nat, ofo: seq<Segment>, end: nat)
    requires b < |sent| && b + 1 + Drainable(ofo, end) <= |sent|
    requires forall i :: 0 <= i < Drainable(ofo, end) ==> ofo[i] == sent[b + 1 + i]
    ensures Drained(ofo, end, Payloads(sent[..b]) + sent[b].payload).1 == Payloads(sent[..b + 1 + Drainable(ofo, end)])
  {
    PayloadsSnoc(sent, b);
    RunPayloads(sent, ofo, b + 1, Drainable(ofo, end));
  }

  lemma ReceiveInOrder(iss: nat, sent: seq<Segment>, b: nat, r: Receiver)
    requires Chain(iss, sent) && ReceiverInv(iss, sent, b, r) && b < |sent|
    ensures sent[b].start == r.rcvNxt
    ensures var n := Drainable(r.ofo, sent[b].SeqEnd());
            && ReceiverInv(iss, sent, b + 1 + n, Receive(r, sent[b]))
            && Receive(r, sent[b]).ofo == r.ofo[n..]
            && forall i :: 0 <= i < n ==> r.ofo[i] == sent[b + 1 + i]
  {
    BoundaryOrder(iss, sent, b, b);
    SeqEndIsBoundary(iss, sent, b);
    DrainIsExact(iss, sent, r.ofo, b + 1);
    DrainedStream(sent, b, r.ofo, sent[b].SeqEnd());
  }

  lemma ReceiveAhead(iss: nat, sent: seq<Segment>, b: nat, r: Receiver, x: Segment)
    requires ReceiverInv(iss, sent, b, r) && Ahead(sent, b + 1, x) && r.rcvNxt < x.start
    ensures ReceiverInv(iss, sent, b, Receive(r, x))
  {
    InsertKeepsSorted(r.ofo, x);
    var ofo := InsertOfo(r.ofo, x);
    forall i | 0 <= i < |ofo| ensures Ahead(sent, b + 1, ofo[i]) {
      assert ofo[i] in ofo;
    }
  }

  /** How many segments the receiver has taken once `x` has arrived. */
  function TakenAfter(b: nat, r: Receiver, x: Segment): nat {
    b + if x.start == r.rcvNxt then 1 + Drainable(r.ofo, x.SeqEnd()) else 0
  }

  /** Whatever segment of the chain arrives, the receiver keeps its invariant and knows where it is. */
  lemma ReceiveKeeps(iss: nat, sent: seq<Segment>, b: nat, r: Receiver, x: Segment)
    requires Chain(iss, sent) && ReceiverInv(iss, sent, b, r) && x in sent
    ensures ReceiverInv(iss, sent, TakenAfter(b, r, x), Receive(r, x))
  {
    var k :| 0 <= k < |sent| && sent[k] == x;
    BoundaryOrder(iss, sent, b, k);
    if x.start == r.rcvNxt {
      ReceiveInOrder(iss, sent, b, r);
    } else if r.rcvNxt < x.start {
      assert Ahead(sent, b + 1, x);
      ReceiveAhead(iss, sent, b, r, x);
    }
  }

  lemma SameStart(iss: nat, sent: seq<Segment>, x: Segment, y: Segment)
    requires Chain(iss, sent) && x in sent && y in sent && x.start == y.start
    ensures x == y
  {
    var j :| 0 <= j < |sent| && sent[j] == x;
    var k :| 0 <= k < |sent| && sent[k] == y;
    BoundaryOrder(iss, sent, j, k);
    BoundaryOrder(iss, sent, k, j);
  }

  lemma InsertKeepsArrivals(iss: nat, sent: seq<Segment>, b: nat, ofo: seq<Segment>, delivered: set<Segment>,
                            x: Segment)
    requires Chain(iss, sent) && b <= |sent| && Waiting(sent, b + 1, ofo) && x in sent
    requires ArrivalsInv(sent, b, ofo, delivered)
    ensures ArrivalsInv(sent, b, SortedInsert(ofo, x), delivered + {x})
  {
    InsertKeepsSorted(ofo, x);
    if y :| y in ofo && y.start == x.start {
      var i :| 0 <= i < |ofo| && ofo[i] == y;
      assert Ahead(sent, b + 1, ofo[i]);
      SameStart(iss, sent, x, y);
    }
  }

  lemma ReceiveKeepsArrivals(iss: nat, sent: seq<Segment>, b: nat, r: Receiver, delivered: set<Segment>, x: Segment)
    requires Chain(iss, sent) && ReceiverInv(iss, sent, b, r) && x in sent
    requires ArrivalsInv(sent, b, r.ofo, delivered)
    ensures TakenAfter(b, r, x) <= |sent|
    ensures ArrivalsInv(sent, TakenAfter(b, r, x), Receive(r, x).ofo, delivered + if IsLost(r, x) then {} else {x})
  {
    var k :| 0 <= k < |sent| && sent[k] == x;
    BoundaryOrder(iss, sent, b, k);
    if x.start == r.rcvNxt {
      ReceiveInOrder(iss, sent, b, r);
      DrainKeepsArrivals(sent, b, r.ofo, Drainable(r.ofo, x.SeqEnd()), delivered);
    } else if r.rcvNxt < x.start {
      InsertKeepsArrivals(iss, sent, b, r.ofo, delivered, x);
    } else {
      assert sent[..b][k] == x;
    }
  }

  lemma DrainKeepsArrivals(sent: seq<Segment>, b: nat, ofo: seq<Segment>, n: nat, delivered: set<Segment>)
    requires n <= |ofo| && b + 1 + n <= |sent|
    requires forall i :: 0 <= i < n ==> ofo[i] == sent[b + 1 + i]
    requires ArrivalsInv(sent, b, ofo, delivered)
    ensures ArrivalsInv(sent, b + 1 + n, ofo[n..], delivered + {sent[b]})
  {
    forall y | y in delivered + {sent[b]} ensures y in sent[..b + 1 + n] || y in ofo[n..] {
      DrainedOrWaiting(sent, b, ofo, n, sent[b], y);
    }
    forall m | 0 <= m < b + 1 + n ensures sent[m] in delivered + {sent[b]} {
      assert m > b ==> sent[m] == ofo[m - b - 1];
    }
  }

  lemma DrainedOrWaiting(sent: seq<Segment>, b: nat, ofo: seq<Segment>, n: nat, x: Segment, y: Segment)
    requires n <= |ofo| && b + 1 + n <= |sent| && sent[b] == x
    requires forall i :: 0 <= i < n ==> ofo[i] == sent[b + 1 + i]
    requires y in sent[..b] || y in ofo || y == x
    ensures y in sent[..b + 1 + n] || y in ofo[n..]
  {
    if y == x {
      assert sent[..b + 1 + n][b] == y;
    } else if y in sent[..b] {
      var i :| 0 <= i < b && sent[..b][i] == y;
      assert sent[..b + 1 + n][i] == y;
    } else {
      var i :| 0 <= i < |ofo| && ofo[i] == y;
      if i < n {
        assert sent[..b + 1 + n][b + 1 + i] == y;
      } else {
        assert ofo[n..][i - n] == y;
      }
    }
  }

  // ---------------------------------------------------------------- every step, every run

  lemma ReceiverSeesMore(iss: nat, sent: seq<Segment>, more: seq<Segment>, b: nat, r: Receiver)
    requires sent <= more && ReceiverInv(iss, sent, b, r)
    ensures ReceiverInv(iss, more, b, r)
  {
    assert more[..b] == sent[..b];
    forall i | 0 <= i < |r.ofo| ensures Ahead(more, b + 1, r.ofo[i]) {
      assert Ahead(sent, b + 1, r.ofo[i]);
      var k :| b + 1 <= k < |sent| && sent[k] == r.ofo[i];
      assert more[k] == r.ofo[i];
    }
  }

  lemma AcksSeeMore(iss: nat, sent: seq<Segment>, more: seq<Segment>, b: nat, b': nat, acks: set<Ack>)
    requires sent <= more && b <= b' <= |more| && b <= |sent| && AcksInv(iss, sent, b, acks)
    ensures AcksInv(iss, more, b', acks)
  {
    forall ack | ack in acks
      ensures exists j :: 0 <= j <= b' && ack.number == Boundary(iss, more, j)
    {
      var j :| 0 <= j <= b && ack.number == Boundary(iss, sent, j);
      assert more[..j] == sent[..j];
      assert ack.number == Boundary(iss, more, j);
    }
  }

  lemma SendKeepsInv(c: Conn, data: seq<Byte>)
    requires Inv(c) && Enabled(c, AppSend(data))
    ensures Inv(Next(c, AppSend(data)))
  {
    var more := c.sent + [Segment(c.sender.sndNxt, data)];
    SendKeepsSender(c.iss, c.sent, c.sender, data);
    ReceiverSeesMore(c.iss, c.sent, more, c.taken, c.receiver);
    AcksSeeMore(c.iss, c.sent, more, c.taken, c.taken, c.acks);
    assert more[..c.taken] == c.sent[..c.taken];
    assert ArrivalsInv(more, c.taken, c.receiver.ofo, c.delivered);
    assert more[|c.sent|] == Segment(c.sender.sndNxt, data);
  }

  lemma ScanKeepsInv(c: Conn)
    requires Inv(c)
    ensures Inv(Next(c, TimerScan))
  {
    ScanKeepsSender(c.iss, c.sent, c.sender, |c.sender.sndBuf|);
    forall x | x in Scan(c.sender, |c.sender.sndBuf|).resent ensures x in c.sent {
      SndBufInSent(c.iss, c.sent, c.sender, x);
    }
  }

  lemma SegmentKeepsInv(c: Conn, x: Segment, k: nat)
    requires Inv(c) && Enabled(c, ArriveSegment(x, k))
    ensures Inv(Next(c, ArriveSegment(x, k)))
  {
    var d := Next(c, ArriveSegment(x, k));
    assert d.taken == TakenAfter(c.taken, c.receiver, x);
    ReceiveKeeps(c.iss, c.sent, c.taken, c.receiver, x);
    ReceiveKeepsArrivals(c.iss, c.sent, c.taken, c.receiver, c.delivered, x);
    AcksSeeMore(c.iss, c.sent, c.sent, c.taken, d.taken, c.acks);
    assert d.receiver.rcvNxt == Boundary(c.iss, c.sent, d.taken);
    assert AcksInv(c.iss, c.sent, d.taken, d.acks);
  }

  lemma AckKeepsInv(c: Conn, ack: Ack)
    requires Inv(c) && Enabled(c, ArriveAck(ack))
    ensures Inv(Next(c, ArriveAck(ack)))
  {
    var j :| 0 <= j <= c.taken && ack.number == Boundary(c.iss, c.sent, j);
    AckKeepsSender(c.iss, c.sent, c.sender, j, ack.rwnd);
    ResendIsFromBuffer(c.sender, ack.number, ack.rwnd);
    forall x | x in Resent(ProcessAck(c.sender, ack.number, ack.rwnd).resend) ensures x in c.sent {
      SndBufInSent(c.iss, c.sent, c.sender, x);
    }
  }

  lemma ResendIsFromBuffer(s: Sender, ack: nat, rwnd: nat)
    ensures forall x :: x in Resent(ProcessAck(s, ack, rwnd).resend) ==> x in SegmentsOf(s.sndBuf)
  {
    if ack == s.sndUna {
      assert s.sndBuf != [] ==> SegmentsOf(s.sndBuf)[0] == s.sndBuf[0].segment;
    } else {
      var s1, n := s.(ackTime := 0), Covered(s.sndBuf, ack);
      PopAckedReleases(s1, ack);
      assert n < |s.sndBuf| ==> SegmentsOf(s.sndBuf)[n] == s.sndBuf[n..][0].segment;
    }
  }

  lemma NextInv(c: Conn, ev: Event)
    requires Inv(c) && Enabled(c, ev)
    ensures Inv(Next(c, ev))
  {
    match ev
    case AppSend(data) => SendKeepsInv(c, data);
    case TimerScan => ScanKeepsInv(c);
    case ArriveSegment(x, k) => SegmentKeepsInv(c, x, k);
    case ArriveAck(ack) => AckKeepsInv(c, ack);
    case AppRead(n) =>
  }

  lemma {:induction false} ExecInv(iss: nat, evs: seq<Event>)
    requires iss < U32 && Exec(iss, evs).Some?
    ensures Inv(Exec(iss, evs).value)
  {
    if evs == [] {
    } else {
      ExecInv(iss, evs[..|evs| - 1]);
      NextInv(Exec(iss, evs[..|evs| - 1]).value, evs[|evs| - 1]);
    }
  }

  lemma ReachableInv(c: Conn)
    requires Reachable(c)
    ensures Inv(c)
  {
    var iss: nat, evs :| iss < U32 && Exec(iss, evs) == Some(c);
    ExecInv(iss, evs);
  }
}
