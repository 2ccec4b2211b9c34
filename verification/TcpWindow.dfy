/**
 The send window over a run: what sets it, what uses it up, and that the runs in which every segment
 leaves with the window open are those that tcp_sock_write makes.
 */
module TcpWindow {
  import opened RingBuffer
  import opened TcpSender
  import opened TcpReceiver
  import opened TcpConnection
  import opened TcpTheorems
  import opened TcpRuns

  // ---------------------------------------------------------------- what sets the window

  /** The numbers of a run never wrap, so the signed comparisons mean this. */
  lemma SeqLeqIs(a: nat, b: nat)
    requires a < U32 && b < U32
    ensures SeqLeq(a, b) <==> (if a <= b then b - a <= U32 / 2 else a - b >= U32 / 2) || a == b
  {
  }

  /** An acknowledgement sets the window, to the smaller of what the receiver advertises and cwnd
      segments, exactly if it is at snd_una once it has released what it covers, or 2^31 and more
      behind, and snd_nxt is at most 2^31 ahead of it. Otherwise the window stays. */
  lemma AckSetsWindow(c: Conn, ack: Ack)
    requires Reachable(c) && ack in c.acks
    ensures var s, t := c.sender, ProcessAck(c.sender, ack.number, ack.rwnd).sender;
            if (t.sndUna == ack.number || t.sndUna - ack.number >= U32 / 2) && t.sndNxt - ack.number <= U32 / 2
            then && t.advWnd == ack.rwnd
                 && t.sndWnd <= ack.rwnd && t.sndWnd <= t.cwnd * MSS
                 && (t.sndWnd == ack.rwnd || t.sndWnd == t.cwnd * MSS)
            else t.advWnd == s.advWnd && t.sndWnd == s.sndWnd
  {
    ReachableInv(c);
    var j := AckPosition(c.iss, c.sent, c.taken, c.acks, ack);
    AckSetsWindowOf(c.iss, c.sent, c.sender, j, ack.rwnd);
  }

  lemma {:induction false} ReleaseKeepsWindow(s: Sender, ack: nat)
    ensures PopAcked(s, ack).advWnd == s.advWnd && PopAcked(s, ack).sndWnd == s.sndWnd
    decreases |s.sndBuf|
  {
    if s.sndBuf != [] && s.sndBuf[0].seqEnd <= ack {
      ReleaseKeepsWindow(PopOne(s), ack);
    }
  }

  /** Before the window is updated it is as it was. */
  lemma UpdatedFrom(s: Sender, ack: nat, rwnd: nat) returns (u: Sender)
    ensures ProcessAck(s, ack, rwnd).sender == UpdateWindow(u, ack, rwnd)
    ensures u.advWnd == s.advWnd && u.sndWnd == s.sndWnd
  {
    if ack == s.sndUna {
      u := DuplicateAck(s).sender;
    } else {
      u := OtherAck(s, ack).sender;
      OtherAckSender(s, ack);
      ReleaseKeepsWindow(s.(ackTime := 0), ack);
    }
  }

  lemma UnaAfter(iss: nat, sent: seq<Segment>, s: Sender, j: nat, rwnd: nat)
    requires Chain(iss, sent) && SenderInv(iss, sent, s) && j <= |sent|
    ensures var t := ProcessAck(s, Boundary(iss, sent, j), rwnd).sender;
            Boundary(iss, sent, j) <= t.sndUna <= t.sndNxt < U32
  {
    AckKeepsSender(iss, sent, s, j, rwnd);
    var t := ProcessAck(s, Boundary(iss, sent, j), rwnd).sender;
    BoundaryGrows(iss, sent, j, |sent| - |t.sndBuf|);
    BoundaryGrows(iss, sent, |sent| - |t.sndBuf|, |sent|);
  }

  lemma AckSetsWindowOf(iss: nat, sent: seq<Segment>, s: Sender, j: nat, rwnd: nat)
    requires Chain(iss, sent) && SenderInv(iss, sent, s) && j <= |sent|
    ensures var ack := Boundary(iss, sent, j);
            var t := ProcessAck(s, ack, rwnd).sender;
            if (t.sndUna == ack || t.sndUna - ack >= U32 / 2) && t.sndNxt - ack <= U32 / 2
            then && t.advWnd == rwnd
                 && t.sndWnd <= rwnd && t.sndWnd <= t.cwnd * MSS
                 && (t.sndWnd == rwnd || t.sndWnd == t.cwnd * MSS)
            else t.advWnd == s.advWnd && t.sndWnd == s.sndWnd
  {
    var ack := Boundary(iss, sent, j);
    var u := UpdatedFrom(s, ack, rwnd);
    UnaAfter(iss, sent, s, j, rwnd);
    SeqLeqIs(u.sndUna, ack);
    SeqLeqIs(ack, u.sndNxt);
  }

  // ---------------------------------------------------------------- what uses it up

  /** The bytes first sent by the first `n` events. */
  function BytesSent(evs: seq<Event>, n: nat): nat
    requires n <= |evs|
  {
    if n == 0 then 0 else BytesSent(evs, n - 1) + if evs[n - 1].AppSend? then |evs[n - 1].data| else 0
  }

  /** Between acknowledgements and scans the window falls by every byte sent, whatever arrives at the
      receiver and is read there, wrapping at 2^32. */
  lemma {:induction false} SendsUseWindow(cs: seq<Conn>, evs: seq<Event>, n: nat)
    requires Stretch(cs, evs) && n <= |evs| && cs[0].sender.sndWnd < U32
    requires forall i :: 0 <= i < |evs| ==> !evs[i].ArriveAck? && !evs[i].TimerScan?
    ensures cs[n].sender.sndWnd == (cs[0].sender.sndWnd - BytesSent(evs, n)) % U32
  {
    if n > 0 {
      SendsUseWindow(cs, evs, n - 1);
      assert StepAt(cs, evs, n - 1);
      if evs[n - 1].AppSend? {
        SubtractTwice(cs[0].sender.sndWnd, BytesSent(evs, n - 1), |evs[n - 1].data|);
      }
    }
  }

  // ---------------------------------------------------------------- writing

  /** The events in which the write loop sends `segments`. */
  function SendEvents(segments: seq<Segment>): (evs: seq<Event>)
    ensures |evs| == |segments|
  {
    seq(|segments|, j requires 0 <= j < |segments| => AppSend(segments[j].payload))
  }

  /** What one call of the write loop may send from `s`: pieces of MSS bytes, each but the first with
      the window open. */
  ghost predicate Writable(s: Sender, data: seq<Byte>, segments: seq<Segment>) {
    && s.sndNxt + |data| < U32 && s.sndWnd < U32
    && CutInto(s.sndNxt, data, segments)
    && forall j :: 0 < j < |segments| ==> OpenAfter(s.sndWnd, s.inflight, j)
  }

  /** The bytes of the first `m` pieces. */
  function Upto(data: seq<Byte>, m: nat): seq<Byte> {
    if m * MSS < |data| then data[..m * MSS] else data
  }

  lemma PieceFits(s: Sender, data: seq<Byte>, segments: seq<Segment>, m: nat)
    requires Writable(s, data, segments) && m < |segments|
    ensures m * MSS < |data| && 0 < |segments[m].payload| <= MSS
    ensures Upto(data, m + 1) == Upto(data, m) + segments[m].payload
    ensures |Upto(data, m)| == m * MSS && segments[m] == Segment(s.sndNxt + m * MSS, segments[m].payload)
  {
    assert m * MSS <= (|segments| - 1) * MSS;
  }

  lemma AfterPieces(s: Sender, data: seq<Byte>, segments: seq<Segment>, m: nat)
    requires Writable(s, data, segments) && m < |segments| && (m > 0 || WindowOpen(s))
    ensures var t := SendCut(s, Upto(data, m));
            && t.sndNxt == s.sndNxt + m * MSS && WindowOpen(t)
            && SendCut(s, Upto(data, m + 1)) == SendPacket(t, segments[m].payload)
  {
    PieceFits(s, data, segments, m);
    SendCutNumbers(s, Upto(data, m), m);
    SendOneMore(s, Upto(data, m), segments[m].payload);
    var t := SendCut(s, Upto(data, m));
    assert WindowOpen(t) by {
      if m == 0 {
        assert Upto(data, 0) == [];
      } else {
        assert OpenAfter(s.sndWnd, s.inflight, m);
        assert t.inflight == s.inflight + m;
      }
    }
  }

  lemma {:induction false} WritesPieces(iss: nat, evs: seq<Event>, c: Conn, data: seq<Byte>, segments: seq<Segment>,
                                        m: nat) returns (d: Conn)
    requires PoliteRun(iss, evs, c) && WindowOpen(c.sender) && Writable(c.sender, data, segments) && m <= |segments|
    ensures PoliteRun(iss, evs + SendEvents(segments[..m]), d)
    ensures d.sender == SendCut(c.sender, Upto(data, m)) && d.sent == c.sent + segments[..m]
  {
    if m == 0 {
      d := c;
      assert evs + SendEvents(segments[..0]) == evs && Upto(data, 0) == [] && segments[..0] == [];
    } else {
      var b := WritesPieces(iss, evs, c, data, segments, m - 1);
      d := SendsPiece(iss, evs + SendEvents(segments[..m - 1]), c.sender, b, data, segments, m - 1);
      OnePieceMore(evs, c.sent, segments, m - 1);
    }
  }

  lemma OnePieceMore(evs: seq<Event>, sent: seq<Segment>, segments: seq<Segment>, m: nat)
    requires m < |segments|
    ensures evs + SendEvents(segments[..m + 1]) ==
            evs + SendEvents(segments[..m]) + [AppSend(segments[m].payload)]
    ensures sent + segments[..m + 1] == sent + segments[..m] + [segments[m]]
  {
    assert segments[..m + 1] == segments[..m] + [segments[m]];
    assert SendEvents(segments[..m + 1]) == SendEvents(segments[..m]) + [AppSend(segments[m].payload)];
  }

  lemma SendsPiece(iss: nat, evs: seq<Event>, s: Sender, b: Conn, data: seq<Byte>, segments: seq<Segment>, m: nat)
    returns (d: Conn)
    requires PoliteRun(iss, evs, b) && WindowOpen(s) && Writable(s, data, segments) && m < |segments|
    requires b.sender == SendCut(s, Upto(data, m))
    ensures PoliteRun(iss, evs + [AppSend(segments[m].payload)], d)
    ensures d.sender == SendCut(s, Upto(data, m + 1)) && d.sent == b.sent + [segments[m]]
  {
    PieceFits(s, data, segments, m);
    AfterPieces(s, data, segments, m);
    var ev := AppSend(segments[m].payload);
    PoliteOneMore(iss, evs, b, ev);
    d := Next(b, ev);
  }

  /** A call of the write loop that finds the window open, as one does that has been woken, is a polite
      run of sends: it leaves the sender that the call leaves and has sent the segments it sent. */
  lemma WriteIsPolite(iss: nat, evs: seq<Event>, c: Conn, data: seq<Byte>, segments: seq<Segment>) returns (d: Conn)
    requires PoliteRun(iss, evs, c) && WindowOpen(c.sender) && Writable(c.sender, data, segments)
    ensures PoliteRun(iss, evs + SendEvents(segments), d)
    ensures d.sender == SendCut(c.sender, data) && d.sent == c.sent + segments
  {
    assert segments[..|segments|] == segments;
    assert Upto(data, |segments|) == data;
    d := WritesPieces(iss, evs, c, data, segments, |segments|);
  }
}
