/**
 The receiving half of the user-level TCP in its data phase: in-order payload
 goes to the ring buffer, segments ahead of it wait in rcv_ofo_buf.
 */
module TcpReceiver {
  import opened RingBuffer
  import opened TcpSender

  /** An acknowledgement: cumulative number and advertised window. */
  datatype Ack = Ack(number: nat, rwnd: nat)

  /** `stream` is every byte ever written to the ring buffer. */
  datatype Receiver = Receiver(rcvNxt: nat, ofo: seq<Segment>, stream: seq<Byte>)

  function Payloads(segments: seq<Segment>): seq<Byte> {
    if segments == [] then [] else segments[0].payload + Payloads(segments[1..])
  }

  /** Sorted insertion that drops a segment whose start is already present. */
  function SortedInsert(ofo: seq<Segment>, segment: Segment): seq<Segment> {
    if ofo == [] then [segment]
    else if segment.start > ofo[0].start then [ofo[0]] + SortedInsert(ofo[1..], segment)
    else if segment.start == ofo[0].start then ofo
    else [segment] + ofo
  }

  /** The segment belongs before all that wait. */
  predicate GoesFirst(ofo: seq<Segment>, segment: Segment) {
    ofo != [] && segment.start < ofo[0].start
  }

  /** write_ofo_buffer: sorted insertion, but a segment that belongs before all that wait is lost,
      because the source links it to a copy of the list head. */
  function InsertOfo(ofo: seq<Segment>, segment: Segment): seq<Segment> {
    if GoesFirst(ofo, segment) then ofo else SortedInsert(ofo, segment)
  }

  /** The code inserts what it means to insert exactly unless the segment belongs before all that wait. */
  lemma InsertIsRightIff(ofo: seq<Segment>, segment: Segment)
    ensures InsertOfo(ofo, segment) == SortedInsert(ofo, segment) <==> !GoesFirst(ofo, segment)
  {
    if GoesFirst(ofo, segment) {
      assert |SortedInsert(ofo, segment)| == |ofo| + 1;
    }
  }

  /** Insertion skips the segments that start earlier. */
  lemma {:induction false} InsertSkips(ofo: seq<Segment>, segment: Segment, i: nat)
    requires i <= |ofo| && forall j :: 0 <= j < i ==> segment.start > ofo[j].start
    ensures SortedInsert(ofo, segment) == ofo[..i] + SortedInsert(ofo[i..], segment)
  {
    if i == 0 {
      assert ofo[0..] == ofo;
    } else {
      InsertSkips(ofo[1..], segment, i - 1);
      assert ofo[..i] == [ofo[0]] + ofo[1..][..i - 1];
      assert ofo[i..] == ofo[1..][i - 1..];
    }
  }

  /** How many waiting segments the drain loop takes when the stream ends at `end`. */
  function Drainable(ofo: seq<Segment>, end: nat): (n: nat)
    ensures n <= |ofo|
  {
    if ofo == [] || end < ofo[0].start then 0 else 1 + Drainable(ofo[1..], ofo[0].SeqEnd())
  }

  function DrainEnd(ofo: seq<Segment>, end: nat): nat {
    if ofo == [] || end < ofo[0].start then end else DrainEnd(ofo[1..], ofo[0].SeqEnd())
  }

  /** What the drain loop leaves waiting, and the stream it makes. */
  function Drained(ofo: seq<Segment>, end: nat, stream: seq<Byte>): (seq<Segment>, seq<Byte>) {
    var n := Drainable(ofo, end);
    (ofo[n..], stream + Payloads(ofo[..n]))
  }

  lemma DrainOne(ofo: seq<Segment>, end: nat, stream: seq<Byte>)
    requires ofo != [] && ofo[0].start <= end
    ensures Drained(ofo, end, stream) == Drained(ofo[1..], ofo[0].SeqEnd(), stream + ofo[0].payload)
  {
    var n := Drainable(ofo, end);
    assert ofo[..n][1..] == ofo[1..][..n - 1] && ofo[..n][0] == ofo[0];
    assert ofo[n..] == ofo[1..][n - 1..];
    var rest := Payloads(ofo[1..][..n - 1]);
    assert stream + (ofo[0].payload + rest) == stream + ofo[0].payload + rest;
  }

  function Receive(r: Receiver, segment: Segment): Receiver {
    if segment.start == r.rcvNxt then
      var (ofo, stream) := Drained(r.ofo, segment.SeqEnd(), r.stream + segment.payload);
      Receiver(DrainEnd(r.ofo, segment.SeqEnd()), ofo, stream)
    else if r.rcvNxt < segment.start then
      r.(ofo := InsertOfo(r.ofo, segment))
    else r
  }

  /** A segment that arrives early and is lost by the list. */
  predicate IsLost(r: Receiver, segment: Segment) {
    r.rcvNxt < segment.start && GoesFirst(r.ofo, segment)
  }

  /** The receiver's control block, updated in place. */
  class TcpRecvSock {
    const rcvBuf: Ring
    var rcvNxt: nat
    var rcvWnd: nat
    var rcvOfoBuf: seq<Segment>
    /** The bytes handed to the application so far. */
    ghost var consumed: seq<Byte>

    /** The advertised window is always the free space of the ring buffer. */
    ghost predicate Valid()
      reads this, rcvBuf
    {
      rcvBuf.Valid() && rcvBuf.size == TCP_DEFAULT_WINDOW + 1 && rcvWnd == rcvBuf.Free()
    }

    ghost function State(): Receiver
      requires Valid()
      reads this, rcvBuf, rcvBuf.buf
    {
      Receiver(rcvNxt, rcvOfoBuf, consumed + rcvBuf.Contents())
    }

    constructor (irs: nat)
      ensures Valid() && fresh(rcvBuf) && fresh(rcvBuf.buf)
      ensures State() == Receiver(irs, [], []) && consumed == []
    {
      rcvBuf := new Ring(TCP_DEFAULT_WINDOW);
      rcvNxt := irs;
      rcvWnd := TCP_DEFAULT_WINDOW;
      rcvOfoBuf := [];
      consumed := [];
    }

    /** tcp_sock_read once the buffer is not empty: it takes the oldest bytes and reopens the window. */
    method SockRead(dst: array<Byte>, len: nat) returns (plen: nat)
      requires Valid() && dst != rcvBuf.buf && len <= dst.Length && !rcvBuf.Empty()
      modifies this, rcvBuf, dst
      ensures Valid() && State() == old(State())
      ensures plen == if len < old(rcvBuf.Used()) then len else old(rcvBuf.Used())
      ensures consumed == old(consumed) + dst[..plen]
      ensures rcvBuf.Used() == old(rcvBuf.Used()) - plen
    {
      ghost var all, before := rcvBuf.Contents(), consumed;
      plen := rcvBuf.Read(dst, len);
      rcvWnd := rcvWnd + plen;
      MoveBytes(before, all, plen);
      consumed := consumed + all[..plen];
    }

    /** sleep_on(wait_recv): the application reads some bytes meanwhile, we do not know how many. */
    method AwaitReader()
      requires Valid() && !rcvBuf.Empty()
      modifies this, rcvBuf
      ensures Valid() && State() == old(State())
      ensures rcvBuf.Used() < old(rcvBuf.Used())
      ensures old(consumed) <= consumed
    {
      var k: nat :| 0 < k <= rcvBuf.Used();
      var dst := new Byte[k](_ => 0);
      var _ := SockRead(dst, k);
    }

    /** The wait for room and the write that follows it. */
    method WriteBlocking(payload: seq<Byte>)
      requires Valid() && 0 < |payload| <= TCP_DEFAULT_WINDOW
      modifies this, rcvBuf, rcvBuf.buf
      ensures Valid()
      ensures State() == old(State()).(stream := old(State()).stream + payload)
      ensures old(consumed) <= consumed
    {
      while rcvBuf.Free() < |payload|
        invariant Valid() && State() == old(State())
        invariant old(consumed) <= consumed
        decreases rcvBuf.Used()
      {
        AwaitReader();
      }
      WriteNow(payload);
    }

    method WriteNow(payload: seq<Byte>)
      requires Valid() && 0 < |payload| <= rcvBuf.Free()
      modifies this`rcvWnd, rcvBuf, rcvBuf.buf
      ensures Valid()
      ensures State() == old(State()).(stream := old(State()).stream + payload)
    {
      var src := new Byte[|payload|](i requires 0 <= i < |payload| => payload[i]);
      assert src[..] == payload;
      ghost var all := rcvBuf.Contents();
      rcvBuf.Write(src);
      rcvWnd := rcvWnd - |payload|;
      assert consumed + (all + payload) == consumed + all + payload;
    }

    /** The walk of write_ofo_buffer ends before the entry at `i`; without an earlier entry the new
        one is linked behind a copy of the head, where the list does not show it. */
    method WriteOfoBuffer(segment: Segment)
      modifies this`rcvOfoBuf
      ensures rcvOfoBuf == InsertOfo(old(rcvOfoBuf), segment)
    {
      var i := 0;
      while i < |rcvOfoBuf| && segment.start > rcvOfoBuf[i].start
        invariant i <= |rcvOfoBuf|
        invariant forall j :: 0 <= j < i ==> segment.start > rcvOfoBuf[j].start
      {
        i := i + 1;
      }
      InsertSkips(rcvOfoBuf, segment, i);
      if i < |rcvOfoBuf| && segment.start == rcvOfoBuf[i].start {
        assert rcvOfoBuf[..i] + rcvOfoBuf[i..] == rcvOfoBuf;
        return;
      }
      if i == 0 && |rcvOfoBuf| > 0 {
        return;
      }
      rcvOfoBuf := rcvOfoBuf[..i] + [segment] + rcvOfoBuf[i..];
    }

    /** The drain loop: waiting segments that the stream has reached follow it into the buffer. */
    method DrainInPlace(end: nat) returns (seqEnd: nat)
      requires Valid()
      requires forall i :: 0 <= i < |rcvOfoBuf| ==> 0 < |rcvOfoBuf[i].payload| <= MSS
      modifies this, rcvBuf, rcvBuf.buf
      ensures Valid() && old(consumed) <= consumed && seqEnd == DrainEnd(old(rcvOfoBuf), end)
      ensures rcvNxt == old(rcvNxt)
      ensures (rcvOfoBuf, State().stream) == Drained(old(rcvOfoBuf), end, old(State()).stream)
    {
      seqEnd := end;
      ghost var goal := Drained(rcvOfoBuf, end, State().stream);
      while rcvOfoBuf != [] && rcvOfoBuf[0].start <= seqEnd
        invariant Valid() && old(consumed) <= consumed && rcvNxt == old(rcvNxt)
        invariant forall i :: 0 <= i < |rcvOfoBuf| ==> 0 < |rcvOfoBuf[i].payload| <= MSS
        invariant DrainEnd(rcvOfoBuf, seqEnd) == DrainEnd(old(rcvOfoBuf), end)
        invariant Drained(rcvOfoBuf, seqEnd, State().stream) == goal
        decreases |rcvOfoBuf|
      {
        var entry := rcvOfoBuf[0];
        DrainOne(rcvOfoBuf, seqEnd, State().stream);
        seqEnd := entry.SeqEnd();
        WriteBlocking(entry.payload);
        rcvOfoBuf := rcvOfoBuf[1..];
      }
      assert State().stream + [] == State().stream;
    }

    /** The PSH|ACK case of tcp_process; the reply is the acknowledgement it sends. */
    method ReceiveInPlace(segment: Segment) returns (reply: Ack)
      requires Valid() && 0 < |segment.payload| <= MSS
      requires forall i :: 0 <= i < |rcvOfoBuf| ==> 0 < |rcvOfoBuf[i].payload| <= MSS
      modifies this, rcvBuf, rcvBuf.buf
      ensures Valid()
      ensures State() == Receive(old(State()), segment)
      ensures old(consumed) <= consumed
      ensures reply == Ack(rcvNxt, rcvWnd) && rcvWnd == rcvBuf.Free()
    {
      var seqEnd: nat := rcvNxt;
      if seqEnd == segment.start {
        WriteBlocking(segment.payload);
        seqEnd := DrainInPlace(segment.SeqEnd());
        rcvNxt := seqEnd;
      } else if seqEnd < segment.start {
        WriteOfoBuffer(segment);
      }
      reply := Ack(rcvNxt, rcvWnd);
    }
  }

  lemma MoveBytes(before: seq<Byte>, all: seq<Byte>, n: nat)
    requires n <= |all|
    ensures before + all == before + all[..n] + all[n..]
  {
  }

  lemma {:induction false} PayloadsConcat(a: seq<Segment>, b: seq<Segment>)
    ensures Payloads(a + b) == Payloads(a) + Payloads(b)
  {
    if a == [] {
      assert a + b == b;
    } else {
      assert (a + b)[1..] == a[1..] + b;
      PayloadsConcat(a[1..], b);
    }
  }

  lemma PayloadsSnoc(segments: seq<Segment>, n: nat)
    requires n < |segments|
    ensures Payloads(segments[..n + 1]) == Payloads(segments[..n]) + segments[n].payload
  {
    assert segments[..n + 1] == segments[..n] + [segments[n]];
    PayloadsConcat(segments[..n], [segments[n]]);
    assert Payloads([segments[n]]) == segments[n].payload + Payloads([]);
  }
}
