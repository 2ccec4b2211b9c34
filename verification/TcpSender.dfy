/**
 The sending half of the user-level TCP in its data phase: segments wait in
 send_buf until a cumulative acknowledgement covers them, and are sent again on
 three duplicate acknowledgements, on partial acknowledgements during recovery,
 and on timeout.
 */
module TcpSender {
  import opened RingBuffer

  /** Sequence numbers are 32-bit. */
  const U32: nat := 0x1_0000_0000

  /** 1514 less the Ethernet, IP and TCP headers. */
  const MSS: nat := 1460
  const TCP_DEFAULT_WINDOW: nat := 65535
  const TCP_TIMER_SCAN_INTERVAL: int := 100000
  const TCP_RETRANS_INTERVAL_INITIAL: int := 200000

  /** A data packet, as far as the peer's reassembly sees it. */
  datatype Segment = Segment(start: nat, payload: seq<Byte>) {
    function SeqEnd(): nat {
      (start + |payload|) % U32
    }
  }

  datatype SendEntry = SendEntry(segment: Segment, seqEnd: nat, times: nat, timeout: int)

  function SegmentsOf(buf: seq<SendEntry>): (r: seq<Segment>) {
    seq(|buf|, i requires 0 <= i < |buf| => buf[i].segment)
  }

  datatype NrState = LOSS | OPEN | RECOVER

  datatype Sender = Sender(
    sndUna: nat, sndNxt: nat, sndWnd: nat, advWnd: nat,
    cwnd: nat, cnt: nat, ssthresh: nat,
    nrState: NrState, ackTime: nat, recoveryPoint: nat,
    inflight: int, sndBuf: seq<SendEntry>)

  /** What handling an acknowledgement puts on the wire; `PastTheEnd` is the read of a list
      head as if it were a send_buf entry, after which the program's behaviour is undefined. */
  datatype Resend = Nothing | Again(segment: Segment) | PastTheEnd

  /** A socket that has sent its SYN with number `iss`; snd_una is still as allocated. */
  function Connecting(iss: nat, una: nat): Sender {
    var next := (iss + 1) % U32;
    Sender(una, next, 0, 0, 1, 0, TCP_DEFAULT_WINDOW / MSS, OPEN, 0, 0, 1,
           [SendEntry(Segment(iss, []), next, 1, TCP_RETRANS_INTERVAL_INITIAL)])
  }

  /** A connection just established: the release of the SYN has counted as an acknowledged segment. */
  function InitSender(iss: nat): Sender {
    Sender(iss, iss, 2 * MSS, TCP_DEFAULT_WINDOW, 2, 0, TCP_DEFAULT_WINDOW / MSS, OPEN, 0, 0, 0, [])
  }

  /** The acknowledgement of the SYN makes a connecting socket an established one. */
  lemma SynAckEstablishes(iss: nat, una: nat)
    requires iss + 1 < U32 && una != iss + 1
    ensures ProcessAck(Connecting(iss, una), iss + 1, TCP_DEFAULT_WINDOW) == AckResult(InitSender(iss + 1), Nothing)
  {
    var s := Connecting(iss, una);
    assert PopOne(s).sndBuf == [];
    assert PopAcked(PopOne(s), iss + 1) == PopOne(s);
  }

  /** tcp_send_packet and tcp_sndbuf_push: one new segment with payload `data`. */
  function SendPacket(s: Sender, data: seq<Byte>): Sender {
    var next := (s.sndNxt + |data|) % U32;
    s.(sndNxt := next,
       sndWnd := (s.sndWnd - |data|) % U32,
       inflight := s.inflight + 1,
       sndBuf := s.sndBuf + [SendEntry(Segment(s.sndNxt, data), next, 1, TCP_RETRANS_INTERVAL_INITIAL)])
  }

  /** Slow start below ssthresh, congestion avoidance above it. */
  function Grow(s: Sender): Sender {
    if s.cwnd < s.ssthresh then s.(cwnd := s.cwnd + 1)
    else if s.cnt + 1 >= s.cwnd then s.(cnt := 0, cwnd := s.cwnd + 1)
    else s.(cnt := s.cnt + 1)
  }

  /** Releasing the oldest entry of send_buf. */
  function PopOne(s: Sender): Sender
    requires s.sndBuf != []
  {
    var t := s.(sndUna := s.sndBuf[0].seqEnd, inflight := s.inflight - 1, sndBuf := s.sndBuf[1..]);
    if s.nrState == OPEN then Grow(t) else t
  }

  /** The release loop: entries leave while their end is not beyond `ack`, compared as plain numbers. */
  function PopAcked(s: Sender, ack: nat): Sender
    decreases |s.sndBuf|
  {
    if s.sndBuf == [] || s.sndBuf[0].seqEnd > ack then s else PopAcked(PopOne(s), ack)
  }

  /** How many entries at the front of `buf` end at or before `ack`. */
  function Covered(buf: seq<SendEntry>, ack: nat): (n: nat)
    ensures n <= |buf|
    ensures forall i :: 0 <= i < n ==> buf[i].seqEnd <= ack
    ensures n < |buf| ==> buf[n].seqEnd > ack
  {
    if buf == [] || buf[0].seqEnd > ack then 0 else 1 + Covered(buf[1..], ack)
  }

  lemma PopOneEffect(s: Sender)
    requires s.sndBuf != []
    ensures var u := PopOne(s);
            && u.sndBuf == s.sndBuf[1..] && u.inflight == s.inflight - 1
            && u.sndUna == s.sndBuf[0].seqEnd && (s.cwnd >= 1 ==> u.cwnd >= 1)
            && u.nrState == s.nrState && u.recoveryPoint == s.recoveryPoint && u.sndNxt == s.sndNxt
            && u.ackTime == s.ackTime && u.ssthresh == s.ssthresh
  {
  }

  /** The release loop takes exactly the covered entries. */
  lemma {:induction false} PopAckedReleases(s: Sender, ack: nat)
    ensures var t, n := PopAcked(s, ack), Covered(s.sndBuf, ack);
            t.sndBuf == s.sndBuf[n..] && t.inflight == s.inflight - n
    decreases |s.sndBuf|
  {
    if s.sndBuf != [] && s.sndBuf[0].seqEnd <= ack {
      var u, n := PopOne(s), Covered(s.sndBuf, ack);
      PopOneEffect(s);
      PopAckedReleases(u, ack);
      assert s.sndBuf[1..][n - 1..] == s.sndBuf[n..];
    }
  }

  /** It moves snd_una to the end of the last entry it takes. */
  lemma {:induction false} PopAckedMovesUna(s: Sender, ack: nat)
    ensures var n := Covered(s.sndBuf, ack);
            PopAcked(s, ack).sndUna == if n == 0 then s.sndUna else s.sndBuf[n - 1].seqEnd
    decreases |s.sndBuf|
  {
    if s.sndBuf != [] && s.sndBuf[0].seqEnd <= ack {
      var u, n := PopOne(s), Covered(s.sndBuf, ack);
      PopOneEffect(s);
      PopAckedMovesUna(u, ack);
      assert n > 1 ==> s.sndBuf[1..][n - 2] == s.sndBuf[n - 1];
    }
  }

  lemma {:induction false} PopAckedKeeps(s: Sender, ack: nat)
    ensures var t := PopAcked(s, ack);
            && t.nrState == s.nrState && t.recoveryPoint == s.recoveryPoint && t.sndNxt == s.sndNxt
            && t.ackTime == s.ackTime && t.ssthresh == s.ssthresh
            && (s.cwnd >= 1 ==> t.cwnd >= 1)
    decreases |s.sndBuf|
  {
    if s.sndBuf != [] && s.sndBuf[0].seqEnd <= ack {
      PopOneEffect(s);
      PopAckedKeeps(PopOne(s), ack);
    }
  }

  /** less_or_equal_32b: the signed 32-bit difference is not positive. */
  predicate SeqLeq(a: nat, b: nat) {
    var d := (a - b) % U32;
    d == 0 || d >= U32 / 2
  }

  /** tcp_update_window_safe */
  function UpdateWindow(s: Sender, ack: nat, rwnd: nat): Sender {
    if SeqLeq(s.sndUna, ack) && SeqLeq(ack, s.sndNxt)
    then s.(advWnd := rwnd, sndWnd := if rwnd < s.cwnd * MSS then rwnd else s.cwnd * MSS)
    else s
  }

  datatype AckResult = AckResult(sender: Sender, resend: Resend)

  function DuplicateAck(s: Sender): AckResult {
    var t := s.(ackTime := s.ackTime + 1);
    match s.nrState
    case OPEN =>
      if t.ackTime > 2 then
        AckResult(t.(nrState := RECOVER, ssthresh := (s.cwnd + 1) / 2, recoveryPoint := s.sndNxt),
                  if s.sndBuf == [] then Nothing else Again(s.sndBuf[0].segment))
      else AckResult(t, Nothing)
    case RECOVER =>
      if t.ackTime > 1 then
        var cwnd := (s.cwnd - 1) % U32;
        AckResult(t.(ackTime := t.ackTime - 2, cwnd := if cwnd < 1 then 1 else cwnd), Nothing)
      else AckResult(t, Nothing)
    case LOSS => AckResult(t, Nothing)
  }

  function OtherAck(s: Sender, ack: nat): AckResult {
    var t := PopAcked(s.(ackTime := 0), ack);
    match t.nrState
    case RECOVER =>
      if t.recoveryPoint <= ack then AckResult(t.(nrState := OPEN), Nothing)
      else AckResult(t, if t.sndBuf == [] then PastTheEnd else Again(t.sndBuf[0].segment))
    case LOSS =>
      AckResult(if t.recoveryPoint <= ack then t.(nrState := OPEN) else t, Nothing)
    case OPEN => AckResult(t, Nothing)
  }

  /** The acknowledgement part of tcp_process. */
  function ProcessAck(s: Sender, ack: nat, rwnd: nat): AckResult {
    var r := if ack == s.sndUna then DuplicateAck(s) else OtherAck(s, ack);
    AckResult(UpdateWindow(r.sender, ack, rwnd), r.resend)
  }

  /** Besides what the release loop does, an acknowledgement that is no duplicate can end recovery. */
  lemma OtherAckSender(s: Sender, ack: nat)
    ensures var u := PopAcked(s.(ackTime := 0), ack);
            OtherAck(s, ack).sender ==
            u.(nrState := if u.nrState != OPEN && u.recoveryPoint <= ack then OPEN else u.nrState)
  {
  }

  lemma WindowKeepsBuffer(s: Sender, ack: nat, rwnd: nat)
    ensures UpdateWindow(s, ack, rwnd).sndBuf == s.sndBuf
  {
  }

  /** What handling an acknowledgement leaves in send_buf: everything for a duplicate, otherwise what
      the release loop does not take. */
  lemma AckLeaves(s: Sender, ack: nat, rwnd: nat)
    ensures ProcessAck(s, ack, rwnd).sender.sndBuf ==
            s.sndBuf[if ack == s.sndUna then 0 else Covered(s.sndBuf, ack)..]
  {
    if ack == s.sndUna {
      WindowKeepsBuffer(DuplicateAck(s).sender, ack, rwnd);
    } else {
      WindowKeepsBuffer(OtherAck(s, ack).sender, ack, rwnd);
      OtherAckSender(s, ack);
      PopAckedReleases(s.(ackTime := 0), ack);
    }
  }

  datatype ScanResult = ScanResult(sender: Sender, resent: seq<Segment>)

  /** The timer of entry `i` after one more interval, and what that sends. */
  function ScanEntry(s: Sender, i: nat): ScanResult
    requires i < |s.sndBuf|
  {
    var e := s.sndBuf[i].(timeout := s.sndBuf[i].timeout - TCP_TIMER_SCAN_INTERVAL);
    if e.timeout != 0 then ScanResult(s.(sndBuf := s.sndBuf[i := e]), [])
    else
      var t := s.(recoveryPoint := if s.nrState != LOSS then s.sndNxt else s.recoveryPoint,
                  nrState := LOSS, ssthresh := (s.cwnd + 1) / 2, cwnd := 1, sndWnd := MSS);
      if e.times == 3 then
        ScanResult(t.(sndBuf := s.sndBuf[i := e.(times := 1, timeout := TCP_RETRANS_INTERVAL_INITIAL)]), [])
      else
        var f := e.(times := e.times + 1,
                    timeout := if e.times + 1 == 2 then 2 * TCP_RETRANS_INTERVAL_INITIAL
                               else 4 * TCP_RETRANS_INTERVAL_INITIAL);
        ScanResult(t.(sndBuf := s.sndBuf[i := f]), [e.segment])
  }

  /** The retransmission branch of tcp_scan_timer_list after the first `n` entries. */
  function Scan(s: Sender, n: nat): (r: ScanResult)
    requires n <= |s.sndBuf|
    ensures |r.sender.sndBuf| == |s.sndBuf|
  {
    if n == 0 then ScanResult(s, [])
    else
      var before := Scan(s, n - 1);
      var r := ScanEntry(before.sender, n - 1);
      ScanResult(r.sender, before.resent + r.resent)
  }

  /** The loop of tcp_sock_write: `data` leaves in segments of MSS bytes, the last one what remains. */
  function SendCut(s: Sender, data: seq<Byte>): Sender
    decreases |data|
  {
    if data == [] then s
    else
      var n := if |data| < MSS then |data| else MSS;
      SendCut(SendPacket(s, data[..n]), data[n..])
  }

  /** After `j` whole segments more the window is open for another. */
  predicate OpenAfter(sndWnd: nat, inflight: int, j: nat) {
    (sndWnd - j * MSS) % U32 >= MSS * (inflight + j)
  }

  /** `segments` are `data` in order, numbered from `start` on and cut after every MSS bytes. */
  ghost predicate CutInto(start: nat, data: seq<Byte>, segments: seq<Segment>) {
    && (|segments| - 1) * MSS < |data| <= |segments| * MSS
    && forall j :: 0 <= j < |segments| ==>
         && segments[j].start == (start + j * MSS) % U32
         && segments[j].payload == data[j * MSS..if j == |segments| - 1 then |data| else (j + 1) * MSS]
  }

  /** Where the write loop is after it has sent `buf[from..to]` as `segments`. */
  ghost predicate SentSoFar(s0: Sender, s: Sender, buf: seq<Byte>, from: nat, to: nat, segments: seq<Segment>) {
    && from <= to <= |buf| && (to < |buf| ==> to - from == |segments| * MSS)
    && s0.sndNxt < U32 && s0.sndWnd < U32
    && CutInto(s0.sndNxt, buf[from..to], segments)
    && s == SendCut(s0, buf[from..to])
    && SegmentsOf(s.sndBuf) == SegmentsOf(s0.sndBuf) + segments
    && forall j :: 0 < j < |segments| ==> OpenAfter(s0.sndWnd, s0.inflight, j)
  }

  /** The sender's control block, updated in place. */
  class TcpSock {
    var sndUna: nat
    var sndNxt: nat
    var sndWnd: nat
    var advWnd: nat
    var cwnd: nat
    var cnt: nat
    var ssthresh: nat
    var nrState: NrState
    var ackTime: nat
    var recoveryPoint: nat
    var inflight: int
    var sndBuf: seq<SendEntry>

    function State(): Sender
      reads this
    {
      Sender(sndUna, sndNxt, sndWnd, advWnd, cwnd, cnt, ssthresh, nrState, ackTime, recoveryPoint, inflight, sndBuf)
    }

    constructor (iss: nat)
      ensures State() == InitSender(iss)
    {
      sndUna, sndNxt, sndWnd, advWnd := iss, iss, 2 * MSS, TCP_DEFAULT_WINDOW;
      cwnd, cnt, ssthresh := 2, 0, TCP_DEFAULT_WINDOW / MSS;
      nrState, ackTime, recoveryPoint := OPEN, 0, 0;
      inflight, sndBuf := 0, [];
    }

    method SndbufPush(segment: Segment)
      modifies this`sndBuf, this`inflight
      ensures sndBuf == old(sndBuf) + [SendEntry(segment, sndNxt, 1, TCP_RETRANS_INTERVAL_INITIAL)]
      ensures inflight == old(inflight) + 1
    {
      sndBuf := sndBuf + [SendEntry(segment, sndNxt, 1, TCP_RETRANS_INTERVAL_INITIAL)];
      inflight := inflight + 1;
    }

    method SndbufPop()
      requires sndBuf != []
      modifies this`sndBuf, this`inflight
      ensures sndBuf == old(sndBuf)[1..] && inflight == old(inflight) - 1
    {
      sndBuf := sndBuf[1..];
      inflight := inflight - 1;
    }

    method SendPacketInPlace(data: seq<Byte>) returns (segment: Segment)
      modifies this
      ensures State() == SendPacket(old(State()), data)
      ensures segment == Segment(old(sndNxt), data)
    {
      segment := Segment(sndNxt, data);
      sndNxt := (sndNxt + |data|) % U32;
      sndWnd := (sndWnd - |data|) % U32;
      SndbufPush(segment);
    }

    /** tcp_sock_write from byte `sent0` on, until everything is sent or the window makes the caller
        wait; the caller comes back with the returned position once it is woken. Every segment but the
        first leaves with the window open, and the call ends early only when it is not. */
    method Write(buf: seq<Byte>, sent0: nat) returns (sent: nat, segments: seq<Segment>)
      requires sent0 <= |buf| && sndNxt < U32 && sndWnd < U32
      modifies this
      ensures sent0 <= sent <= |buf|
      ensures sent0 < |buf| ==> sent0 < sent
      ensures CutInto(old(sndNxt), buf[sent0..sent], segments)
      ensures forall j :: 0 < j < |segments| ==> OpenAfter(old(sndWnd), old(inflight), j)
      ensures sent < |buf| ==> |buf[sent0..sent]| == |segments| * MSS
      ensures sent < |buf| ==> !OpenAfter(old(sndWnd), old(inflight), |segments|)
      ensures State() == SendCut(old(State()), buf[sent0..sent])
      ensures SegmentsOf(sndBuf) == SegmentsOf(old(sndBuf)) + segments
    {
      sent, segments := sent0, [];
      ghost var s0 := State();
      while sent < |buf|
        invariant SentSoFar(s0, State(), buf, sent0, sent, segments)
        invariant sent < |buf| && segments != [] ==> OpenAfter(s0.sndWnd, s0.inflight, |segments|)
      {
        var remain := |buf| - sent;
        var dataLen := if MSS < remain then MSS else remain;
        WriteStep(s0, State(), buf, sent0, sent, dataLen, segments);
        var segment := SendPacketInPlace(buf[sent..sent + dataLen]);
        segments := segments + [segment];
        sent := sent + dataLen;
        if sent < |buf| && sndWnd < MSS * inflight {
          return;
        }
      }
    }

    method DuplicateAckInPlace() returns (resend: Resend)
      modifies this
      ensures AckResult(State(), resend) == DuplicateAck(old(State()))
    {
      resend := Nothing;
      ackTime := ackTime + 1;
      match nrState {
        case OPEN =>
          if ackTime > 2 {
            nrState := RECOVER;
            ssthresh := (cwnd + 1) / 2;
            recoveryPoint := sndNxt;
            if sndBuf != [] {
              resend := Again(sndBuf[0].segment);
            }
          }
        case RECOVER =>
          if ackTime > 1 {
            ackTime := ackTime - 2;
            cwnd := (cwnd - 1) % U32;
            if cwnd < 1 {
              cwnd := 1;
            }
          }
        case LOSS =>
      }
    }

    method ReleaseOne()
      requires sndBuf != []
      modifies this
      ensures State() == PopOne(old(State()))
    {
      sndUna := sndBuf[0].seqEnd;
      SndbufPop();
      if nrState == OPEN {
        if cwnd < ssthresh {
          cwnd := cwnd + 1;
        } else {
          cnt := cnt + 1;
          if cnt >= cwnd {
            cnt := 0;
            cwnd := cwnd + 1;
          }
        }
      }
    }

    method OtherAckInPlace(ack: nat) returns (resend: Resend)
      modifies this
      ensures AckResult(State(), resend) == OtherAck(old(State()), ack)
    {
      resend := Nothing;
      ackTime := 0;
      ghost var s1 := State();
      while sndBuf != [] && sndBuf[0].seqEnd <= ack
        invariant PopAcked(State(), ack) == PopAcked(s1, ack)
        decreases |sndBuf|
      {
        ReleaseOne();
      }
      assert State() == PopAcked(s1, ack);
      match nrState {
        case RECOVER =>
          if recoveryPoint <= ack {
            nrState := OPEN;
          } else {
            resend := if sndBuf == [] then PastTheEnd else Again(sndBuf[0].segment);
          }
        case LOSS =>
          if recoveryPoint <= ack {
            nrState := OPEN;
          }
        case OPEN =>
      }
    }

    method ProcessAckInPlace(ack: nat, rwnd: nat) returns (resend: Resend)
      modifies this
      ensures AckResult(State(), resend) == ProcessAck(old(State()), ack, rwnd)
    {
      if ack == sndUna {
        resend := DuplicateAckInPlace();
      } else {
        resend := OtherAckInPlace(ack);
      }
      if SeqLeq(sndUna, ack) && SeqLeq(ack, sndNxt) {
        advWnd := rwnd;
        sndWnd := if advWnd < cwnd * MSS then advWnd else cwnd * MSS;
      }
    }

    /** One entry of the timer scan. */
    method ScanEntryInPlace(i: nat) returns (resent: seq<Segment>)
      requires i < |sndBuf|
      modifies this
      ensures ScanResult(State(), resent) == ScanEntry(old(State()), i)
    {
      resent := [];
      var e := sndBuf[i].(timeout := sndBuf[i].timeout - TCP_TIMER_SCAN_INTERVAL);
      if e.timeout == 0 {
        if nrState != LOSS {
          recoveryPoint := sndNxt;
        }
        nrState := LOSS;
        ssthresh := (cwnd + 1) / 2;
        cwnd := 1;
        sndWnd := MSS;
        if e.times == 3 {
          e := e.(times := 1, timeout := TCP_RETRANS_INTERVAL_INITIAL);
        } else {
          resent := [e.segment];
          e := e.(times := e.times + 1);
          e := e.(timeout := if e.times == 2 then e.times * TCP_RETRANS_INTERVAL_INITIAL
                             else 4 * TCP_RETRANS_INTERVAL_INITIAL);
        }
      }
      sndBuf := sndBuf[i := e];
    }

    method ScanTimer() returns (resent: seq<Segment>)
      modifies this
      ensures ScanResult(State(), resent) == Scan(old(State()), |old(sndBuf)|)
    {
      resent := [];
      ghost var s0 := State();
      for i := 0 to |sndBuf|
        invariant |sndBuf| == |s0.sndBuf|
        invariant ScanResult(State(), resent) == Scan(s0, i)
      {
        var one := ScanEntryInPlace(i);
        resent := resent + one;
      }
    }
  }

  /** After whole MSS segments one more segment may follow. */
  lemma {:induction false} SendOneMore(s: Sender, done: seq<Byte>, data: seq<Byte>)
    requires |done| % MSS == 0 && 0 < |data| <= MSS
    ensures SendCut(s, done + data) == SendPacket(SendCut(s, done), data)
    decreases |done|
  {
    if done == [] {
      assert done + data == data && data[..|data|] == data && data[|data|..] == [];
    } else {
      assert (done + data)[..MSS] == done[..MSS] && (done + data)[MSS..] == done[MSS..] + data;
      SendOneMore(SendPacket(s, done[..MSS]), done[MSS..], data);
    }
  }

  /** One turn of the write loop: the next piece continues the cutting and its segment is the last in send_buf. */
  lemma SendNext(s0: Sender, buf: seq<Byte>, from: nat, to: nat, n: nat, segments: seq<Segment>)
    requires from <= to && to + n <= |buf| && 0 < n <= MSS && (to - from) % MSS == 0
    requires SegmentsOf(SendCut(s0, buf[from..to]).sndBuf) == SegmentsOf(s0.sndBuf) + segments
    ensures var s, piece := SendCut(s0, buf[from..to]), buf[to..to + n];
            && SendPacket(s, piece) == SendCut(s0, buf[from..to + n])
            && SegmentsOf(SendPacket(s, piece).sndBuf) ==
               SegmentsOf(s0.sndBuf) + (segments + [Segment(s.sndNxt, piece)])
  {
    assert buf[from..to + n] == buf[from..to] + buf[to..to + n];
    SendOneMore(s0, buf[from..to], buf[to..to + n]);
    PushedSegments(SendCut(s0, buf[from..to]).sndBuf, SendPacket(SendCut(s0, buf[from..to]), buf[to..to + n]).sndBuf);
  }

  lemma SubtractTwice(a: int, x: nat, y: nat)
    ensures ((a - x) % U32 - y) % U32 == (a - x - y) % U32
    ensures ((a + x) % U32 + y) % U32 == (a + x + y) % U32
  {
  }

  /** The numbers after whole segments. */
  lemma {:induction false} SendCutNumbers(s: Sender, data: seq<Byte>, n: nat)
    requires |data| == n * MSS && s.sndNxt < U32 && s.sndWnd < U32
    ensures var t := SendCut(s, data);
            && t.sndNxt == (s.sndNxt + n * MSS) % U32 && t.sndWnd == (s.sndWnd - n * MSS) % U32
            && t.inflight == s.inflight + n
    decreases n
  {
    if n > 0 {
      SendCutNumbers(SendPacket(s, data[..MSS]), data[MSS..], n - 1);
      SubtractTwice(s.sndWnd, MSS, (n - 1) * MSS);
      SubtractTwice(s.sndNxt, MSS, (n - 1) * MSS);
    }
  }

  lemma CutOneMore(start: nat, data: seq<Byte>, piece: seq<Byte>, segments: seq<Segment>, segment: Segment)
    requires CutInto(start, data, segments) && |data| == |segments| * MSS && 0 < |piece| <= MSS
    requires segment == Segment((start + |segments| * MSS) % U32, piece)
    ensures CutInto(start, data + piece, segments + [segment])
  {
    var all, more := data + piece, segments + [segment];
    forall j | 0 <= j < |more|
      ensures more[j].payload == all[j * MSS..if j == |more| - 1 then |all| else (j + 1) * MSS]
    {
      if j < |segments| {
        assert (j + 1) * MSS <= |data| && (j == |segments| - 1 ==> |data| == (j + 1) * MSS);
        assert all[j * MSS..(j + 1) * MSS] == data[j * MSS..(j + 1) * MSS];
      }
    }
  }

  /** Whether one more whole segment leaves the window open is what the write loop tests. */
  lemma OpenIsTested(s: Sender, sndWnd: nat, inflight: int, k: nat, piece: seq<Byte>)
    requires s.sndWnd == (sndWnd - k * MSS) % U32 && s.inflight == inflight + k && |piece| == MSS
    ensures var t := SendPacket(s, piece);
            OpenAfter(sndWnd, inflight, k + 1) <==> t.sndWnd >= MSS * t.inflight
  {
    SubtractTwice(sndWnd, k * MSS, MSS);
    assert k * MSS + MSS == (k + 1) * MSS;
  }

  lemma SendNextNumbers(s0: Sender, buf: seq<Byte>, from: nat, to: nat, n: nat, segments: seq<Segment>)
    requires from <= to && to + n <= |buf| && 0 < n <= MSS && to - from == |segments| * MSS
    requires CutInto(s0.sndNxt, buf[from..to], segments) && s0.sndNxt < U32 && s0.sndWnd < U32
    ensures var s, piece := SendCut(s0, buf[from..to]), buf[to..to + n];
            && CutInto(s0.sndNxt, buf[from..to + n], segments + [Segment(s.sndNxt, piece)])
            && (n == MSS ==>
                  (OpenAfter(s0.sndWnd, s0.inflight, |segments| + 1) <==>
                   SendPacket(s, piece).sndWnd >= MSS * SendPacket(s, piece).inflight))
  {
    var done, piece := buf[from..to], buf[to..to + n];
    SendCutNumbers(s0, done, |segments|);
    if n == MSS {
      OpenIsTested(SendCut(s0, done), s0.sndWnd, s0.inflight, |segments|, piece);
    }
    CutOneMore(s0.sndNxt, done, piece, segments, Segment((s0.sndNxt + |segments| * MSS) % U32, piece));
    assert buf[from..to + n] == done + piece;
  }

  lemma WriteStep(s0: Sender, s: Sender, buf: seq<Byte>, from: nat, to: nat, n: nat, segments: seq<Segment>)
    requires SentSoFar(s0, s, buf, from, to, segments) && to < |buf|
    requires segments != [] ==> OpenAfter(s0.sndWnd, s0.inflight, |segments|)
    requires n == if MSS < |buf| - to then MSS else |buf| - to
    ensures var piece := buf[to..to + n];
            var t, more := SendPacket(s, piece), segments + [Segment(s.sndNxt, piece)];
            && SentSoFar(s0, t, buf, from, to + n, more)
            && (to + n < |buf| ==>
                  (OpenAfter(s0.sndWnd, s0.inflight, |more|) <==> t.sndWnd >= MSS * t.inflight))
  {
    assert (to - from) % MSS == 0;
    SendNext(s0, buf, from, to, n, segments);
    SendNextNumbers(s0, buf, from, to, n, segments);
  }

  lemma PushedSegments(before: seq<SendEntry>, after: seq<SendEntry>)
    requires |after| == |before| + 1 && before <= after
    ensures SegmentsOf(after) == SegmentsOf(before) + [after[|before|].segment]
  {
  }
}
