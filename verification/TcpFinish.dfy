/**
 Whether a connection can still come to its end: everything written read, everything sent
 acknowledged.
 */
module TcpFinish {
  import opened Common
  import opened TcpSender
  import opened TcpReceiver
  import opened TcpConnection
  import opened TcpTheorems
  import opened OfoList

  ghost predicate Finished(c: Conn) {
    c.receiver.stream == Written(c) && c.consumed == |c.receiver.stream| && c.sender.sndBuf == []
  }

  /** The arrival of `x`, with the reader keeping up. */
  function Arrival(c: Conn, x: Segment): Event {
    ArriveSegment(x, |Receive(c.receiver, x).stream|)
  }

  lemma StreamGrows(r: Receiver, x: Segment)
    ensures |Receive(r, x).stream| >= |r.stream|
  {
  }

  lemma ArrivalHappens(iss: nat, evs: seq<Event>, c: Conn, j: nat) returns (run: seq<Event>, d: Conn)
    requires iss < U32 && Exec(iss, evs) == Some(c) && j < |c.sent|
    requires c.sent[j].start >= c.receiver.rcvNxt ==> c.list != Freed
    ensures Enabled(c, Arrival(c, c.sent[j])) && d == Next(c, Arrival(c, c.sent[j]))
    ensures run == evs + [Arrival(c, c.sent[j])] && Exec(iss, run) == Some(d) && Inv(c) && Inv(d)
  {
    ExecInv(iss, evs);
    StreamGrows(c.receiver, c.sent[j]);
    var ev := Arrival(c, c.sent[j]);
    ExecOneMore(iss, evs, c, ev);
    run, d := evs + [ev], Next(c, ev);
    ExecInv(iss, run);
  }

  lemma WaitingIsBeyond(iss: nat, evs: seq<Event>, c: Conn)
    requires iss < U32 && Exec(iss, evs) == Some(c)
    ensures forall x :: x in c.receiver.ofo ==> x.start > c.receiver.rcvNxt && x in c.delivered && x in c.sent
    ensures c.taken < |c.sent| ==> c.sent[c.taken] !in c.delivered
  {
    assert Reachable(c);
    ReachableInv(c);
    ReassemblyIsComplete(c);
    forall x | x in c.receiver.ofo ensures x in c.sent {
      var i :| 0 <= i < |c.receiver.ofo| && c.receiver.ofo[i] == x;
      assert Ahead(c.sent, c.taken + 1, c.receiver.ofo[i]);
    }
  }

  // ---------------------------------------------------------------- what waits, up to the last segment

  /** Of the first `n` segments all that do not start before the first waiting one have arrived. */
  ghost predicate TailArrived(c: Conn, n: nat)
    requires n <= |c.sent|
  {
    c.receiver.ofo != [] ==>
      forall k :: 0 <= k < n && c.sent[k].start >= c.receiver.ofo[0].start ==> c.sent[k] in c.delivered
  }

  /** `d` is `c` with more segments waiting, but none before the first. */
  ghost predicate MoreWaits(c: Conn, d: Conn) {
    && d.sent == c.sent && d.taken == c.taken && d.list == c.list && c.delivered <= d.delivered
    && (c.receiver.ofo == [] <==> d.receiver.ofo == [])
    && (c.receiver.ofo != [] ==> d.receiver.ofo[0] == c.receiver.ofo[0])
  }

  lemma {:induction false} TailCanArrive(iss: nat, evs: seq<Event>, c: Conn, n: nat)
    returns (run: seq<Event>, d: Conn)
    requires iss < U32 && Exec(iss, evs) == Some(c) && c.list != Freed && n <= |c.sent|
    ensures evs <= run && Exec(iss, run) == Some(d) && MoreWaits(c, d) && TailArrived(d, n)
  {
    if n == 0 {
      run, d := evs, c;
    } else {
      var front, mid := TailCanArrive(iss, evs, c, n - 1);
      run, d := OneMoreWaits(iss, front, mid, n - 1);
    }
  }

  lemma OneMoreWaits(iss: nat, evs: seq<Event>, c: Conn, k: nat) returns (run: seq<Event>, d: Conn)
    requires iss < U32 && Exec(iss, evs) == Some(c) && c.list != Freed && k < |c.sent| && TailArrived(c, k)
    ensures evs <= run && Exec(iss, run) == Some(d) && MoreWaits(c, d) && TailArrived(d, k + 1)
  {
    if c.receiver.ofo == [] || c.sent[k].start < c.receiver.ofo[0].start || c.sent[k] in c.delivered {
      run, d := evs, c;
    } else {
      MissingIsBeyond(iss, evs, c, c.sent[k]);
      run, d := ArrivalHappens(iss, evs, c, k);
      BehindFirst(c, c.sent[k]);
      TailLonger(c, d, k);
    }
  }

  lemma TailLonger(c: Conn, d: Conn, k: nat)
    requires k < |c.sent| && TailArrived(c, k) && MoreWaits(c, d) && c.sent[k] in d.delivered
    ensures TailArrived(d, k + 1)
  {
  }

  /** What has not arrived does not start where the first waiting segment does. */
  lemma MissingIsBeyond(iss: nat, evs: seq<Event>, c: Conn, x: Segment)
    requires iss < U32 && Exec(iss, evs) == Some(c) && x in c.sent && x !in c.delivered
    requires c.receiver.ofo != [] && x.start >= c.receiver.ofo[0].start
    ensures c.receiver.rcvNxt < c.receiver.ofo[0].start < x.start
  {
    WaitingIsBeyond(iss, evs, c);
    assert c.receiver.ofo[0] in c.receiver.ofo;
    if x.start == c.receiver.ofo[0].start {
      ExecChain(iss, evs, c);
      SameStart(c.iss, c.sent, x, c.receiver.ofo[0]);
    }
  }

  lemma ExecChain(iss: nat, evs: seq<Event>, c: Conn)
    requires iss < U32 && Exec(iss, evs) == Some(c)
    ensures Chain(c.iss, c.sent)
  {
    ExecInv(iss, evs);
  }

  /** A segment that starts beyond the first waiting one goes behind it. */
  lemma BehindFirst(c: Conn, x: Segment)
    requires Enabled(c, Arrival(c, x))
    requires c.receiver.ofo != [] && c.receiver.rcvNxt < c.receiver.ofo[0].start < x.start
    ensures MoreWaits(c, Next(c, Arrival(c, x))) && x in Next(c, Arrival(c, x)).delivered
  {
    assert Receive(c.receiver, x).ofo == SortedInsert(c.receiver.ofo, x);
  }

  // ---------------------------------------------------------------- the rest in order

  lemma StartsInOrder(iss: nat, sent: seq<Segment>, j: nat, k: nat)
    requires Chain(iss, sent) && j < k <= |sent|
    ensures sent[j].start == Boundary(iss, sent, j) < Boundary(iss, sent, k)
    ensures k < |sent| ==> sent[k].start == Boundary(iss, sent, k)
  {
    BoundaryOrder(iss, sent, k, j);
    BoundaryOrder(iss, sent, j, k);
  }

  /** The segment behind a drained run would have been part of it. */
  lemma BehindHasArrived(c: Conn, k: nat)
    requires Chain(c.iss, c.sent) && TailArrived(c, |c.sent|) && c.taken + 1 < k < |c.sent|
    requires c.receiver.ofo != [] && c.receiver.ofo[0] == c.sent[c.taken + 1]
    ensures c.sent[k] in c.delivered
  {
    StartsInOrder(c.iss, c.sent, c.taken + 1, k);
  }

  lemma NextIsTaken(c: Conn)
    requires Inv(c) && c.taken < |c.sent|
    ensures c.sent[c.taken].start == c.receiver.rcvNxt && !IsLost(c.receiver, c.sent[c.taken])
    ensures var n := Drainable(c.receiver.ofo, c.sent[c.taken].SeqEnd());
            && Receive(c.receiver, c.sent[c.taken]).ofo == c.receiver.ofo[n..]
            && (n > 0 ==> c.taken + 1 < |c.sent| && c.receiver.ofo[0] == c.sent[c.taken + 1])
  {
    ReceiveInOrder(c.iss, c.sent, c.taken, c.receiver);
  }

  /** Once the tail has arrived, the next segment in order leaves it so or takes everything. */
  lemma NextArrives(iss: nat, evs: seq<Event>, c: Conn) returns (run: seq<Event>, d: Conn)
    requires iss < U32 && Exec(iss, evs) == Some(c) && c.list != Freed && c.taken < |c.sent|
    requires TailArrived(c, |c.sent|)
    ensures evs <= run && Exec(iss, run) == Some(d) && d.sent == c.sent && c.taken < d.taken <= |d.sent|
    ensures d.taken < |d.sent| ==> d.list != Freed && TailArrived(d, |d.sent|)
  {
    ExecInv(iss, evs);
    NextIsTaken(c);
    run, d := ArrivalHappens(iss, evs, c, c.taken);
    WaitingIsBeyond(iss, run, d);
    if d.taken < |d.sent| && d.taken > c.taken + 1 {
      BehindHasArrived(c, d.taken);
      assert false;
    }
  }

  lemma {:induction false} RestCanArrive(iss: nat, evs: seq<Event>, c: Conn) returns (run: seq<Event>, d: Conn)
    requires iss < U32 && Exec(iss, evs) == Some(c) && c.taken <= |c.sent|
    requires c.taken < |c.sent| ==> c.list != Freed && TailArrived(c, |c.sent|)
    ensures evs <= run && Exec(iss, run) == Some(d) && d.sent == c.sent && d.taken == |d.sent|
    decreases |c.sent| - c.taken
  {
    if c.taken == |c.sent| {
      run, d := evs, c;
    } else {
      var front, mid := NextArrives(iss, evs, c);
      run, d := RestCanArrive(iss, front, mid);
    }
  }

  // ---------------------------------------------------------------- the last acknowledgement

  lemma OldChangesNothing(c: Conn)
    requires Inv(c) && c.sent != [] && c.taken == |c.sent|
    ensures c.sent[0].start < c.receiver.rcvNxt == Boundary(c.iss, c.sent, |c.sent|)
    ensures Receive(c.receiver, c.sent[0]) == c.receiver
  {
    StartsInOrder(c.iss, c.sent, 0, c.taken);
  }

  /** With everything taken, an old segment brings one more acknowledgement of it all. */
  lemma OldBringsAck(iss: nat, evs: seq<Event>, c: Conn) returns (run: seq<Event>, d: Conn, ack: Ack)
    requires iss < U32 && Exec(iss, evs) == Some(c) && c.sent != [] && c.taken == |c.sent|
    ensures evs <= run && Exec(iss, run) == Some(d) && d.sent == c.sent && d.taken == |d.sent| && d.iss == c.iss
    ensures ack in d.acks && ack.number == c.receiver.rcvNxt
  {
    ExecInv(iss, evs);
    OldChangesNothing(c);
    OldArrivalEffect(c);
    run, d := ArrivalHappens(iss, evs, c, 0);
    ack := Ack(c.receiver.rcvNxt, TCP_DEFAULT_WINDOW);
  }

  lemma OldArrivalEffect(c: Conn)
    requires c.sent != [] && Enabled(c, Arrival(c, c.sent[0]))
    requires c.sent[0].start < c.receiver.rcvNxt && Receive(c.receiver, c.sent[0]) == c.receiver
    ensures var d := Next(c, Arrival(c, c.sent[0]));
            && d.sent == c.sent && d.taken == c.taken && d.iss == c.iss
            && Ack(c.receiver.rcvNxt, TCP_DEFAULT_WINDOW) in d.acks
  {
  }

  lemma LastAck(iss: nat, evs: seq<Event>, c: Conn) returns (run: seq<Event>, d: Conn)
    requires iss < U32 && Exec(iss, evs) == Some(c) && c.taken == |c.sent|
    ensures evs <= run && Exec(iss, run) == Some(d) && d.sent == c.sent && d.taken == |d.sent| && d.sender.sndBuf == []
  {
    ExecInv(iss, evs);
    if c.sent == [] {
      run, d := evs, c;
    } else {
      OldChangesNothing(c);
      var front, mid, ack := OldBringsAck(iss, evs, c);
      run, d := AckArrives(iss, front, mid, ack);
    }
  }

  lemma AckArrives(iss: nat, evs: seq<Event>, c: Conn, ack: Ack) returns (run: seq<Event>, d: Conn)
    requires iss < U32 && Exec(iss, evs) == Some(c) && c.taken == |c.sent|
    requires ack in c.acks && ack.number == Boundary(c.iss, c.sent, |c.sent|)
    ensures evs <= run && Exec(iss, run) == Some(d) && d.sent == c.sent && d.taken == |d.sent| && d.sender.sndBuf == []
  {
    ExecInv(iss, evs);
    assert Reachable(c);
    PastTheEndIff(c, ack);
    BoundaryWithin(c.iss, c.sent, c.sender);
    AckKeepsSender(c.iss, c.sent, c.sender, |c.sent|, ack.rwnd);
    ExecOneMore(iss, evs, c, ArriveAck(ack));
    run, d := evs + [ArriveAck(ack)], Next(c, ArriveAck(ack));
  }

  lemma TakenIsStream(c: Conn)
    requires Inv(c)
    ensures c.receiver.stream == Written(c) <==> c.taken == |c.sent|
  {
    assert c.sent[..|c.sent|] == c.sent;
    BoundaryCounts(c.iss, c.sent, c.taken);
    BoundaryCounts(c.iss, c.sent, |c.sent|);
    BoundaryOrder(c.iss, c.sent, c.taken, |c.sent|);
  }

  lemma LastRead(iss: nat, evs: seq<Event>, c: Conn) returns (run: seq<Event>)
    requires iss < U32 && Exec(iss, evs) == Some(c) && c.taken == |c.sent| && c.sender.sndBuf == []
    ensures evs <= run && Exec(iss, run).Some? && Finished(Exec(iss, run).value)
  {
    ExecInv(iss, evs);
    TakenIsStream(c);
    var ev := AppRead(|c.receiver.stream| - c.consumed);
    ExecOneMore(iss, evs, c, ev);
    run := evs + [ev];
  }

  lemma CanFinish(iss: nat, evs: seq<Event>, c: Conn) returns (run: seq<Event>)
    requires iss < U32 && Exec(iss, evs) == Some(c) && c.taken <= |c.sent|
    requires c.list != Freed || c.taken == |c.sent|
    ensures evs <= run && Exec(iss, run).Some? && Finished(Exec(iss, run).value)
  {
    var r1, c1 := evs, c;
    if c.taken < |c.sent| {
      r1, c1 := TailCanArrive(iss, evs, c, |c.sent|);
    }
    var r2, c2 := RestCanArrive(iss, r1, c1);
    var r3, c3 := LastAck(iss, r2, c2);
    run := LastRead(iss, r3, c3);
  }

  // ---------------------------------------------------------------- a connection that is stuck

  lemma FreedStep(c: Conn, ev: Event)
    requires Enabled(c, ev) && c.list == Freed
    ensures Next(c, ev).list == Freed && Next(c, ev).taken == c.taken && |Next(c, ev).sent| >= |c.sent|
  {
  }

  lemma {:induction false} FreedIsStuck(iss: nat, evs: seq<Event>, more: seq<Event>)
    requires Exec(iss, evs).Some? && Exec(iss, evs).value.list == Freed && Exec(iss, evs + more).Some?
    ensures var c, d := Exec(iss, evs).value, Exec(iss, evs + more).value;
            d.list == Freed && d.taken == c.taken && |d.sent| >= |c.sent|
  {
    if more == [] {
      assert evs + more == evs;
    } else {
      var front := evs + more[..|more| - 1];
      assert (evs + more)[..|evs + more| - 1] == front;
      FreedIsStuck(iss, evs, more[..|more| - 1]);
      FreedStep(Exec(iss, front).value, (evs + more)[|evs + more| - 1]);
    }
  }

  /** From any point of a run, whatever was lost, delayed or repeated so far, the connection can be
      continued until all that was written is read and all that was sent is acknowledged, exactly
      unless the head of rcv_ofo_buf points at a freed entry while segments are still missing. */
  lemma CanFinishIff(iss: nat, evs: seq<Event>)
    requires iss < U32 && Exec(iss, evs).Some?
    ensures var c := Exec(iss, evs).value;
            (exists run :: evs <= run && Exec(iss, run).Some? && Finished(Exec(iss, run).value)) <==>
            c.list != Freed || c.taken == |c.sent|
  {
    var c := Exec(iss, evs).value;
    ExecInv(iss, evs);
    if c.list != Freed || c.taken == |c.sent| {
      var run := CanFinish(iss, evs, c);
    } else {
      forall run | evs <= run && Exec(iss, run).Some? ensures !Finished(Exec(iss, run).value) {
        var more := run[|evs|..];
        assert run == evs + more;
        FreedIsStuck(iss, evs, more);
        ExecInv(iss, run);
        TakenIsStream(Exec(iss, run).value);
      }
    }
  }

  /** Such a connection exists: whatever happens later, it does not finish. */
  lemma StuckHappens() returns (evs: seq<Event>)
    ensures Exec(0, evs).Some?
    ensures forall run :: evs <= run && Exec(0, run).Some? ==> !Finished(Exec(0, run).value)
  {
    var c;
    evs, c := FreedHappens();
    CanFinishIff(0, evs);
  }
}
