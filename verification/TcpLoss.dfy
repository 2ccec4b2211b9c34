/**
 What a run of a connection shows of loss recovery: which segment an acknowledgement makes the sender
 send again, how duplicates shrink the window, what a timeout does, and when exactly each waiting
 segment is sent again.
 */
module TcpLoss {
  import opened Common
  import opened RingBuffer
  import opened TcpSender
  import opened TcpReceiver
  import opened TcpConnection
  import opened TcpTheorems
  import opened TcpRuns

  // ---------------------------------------------------------------- three duplicates

  /** How many acknowledgements of snd_una have arrived since the last other acknowledgement. */
  function DuplicatesSince(iss: nat, evs: seq<Event>): nat
    requires Exec(iss, evs).Some?
  {
    if evs == [] then 0
    else
      var front, ev := evs[..|evs| - 1], evs[|evs| - 1];
      if !ev.ArriveAck? then DuplicatesSince(iss, front)
      else if ev.ack.number == Exec(iss, front).value.sender.sndUna then DuplicatesSince(iss, front) + 1
      else 0
  }

  lemma {:induction false} ScanKeepsCount(s: Sender, n: nat)
    requires n <= |s.sndBuf|
    ensures Scan(s, n).sender.ackTime == s.ackTime
    ensures Scan(s, n).sender.nrState == s.nrState || Scan(s, n).sender.nrState == LOSS
  {
    if n > 0 {
      ScanKeepsCount(s, n - 1);
    }
  }

  lemma AckCounts(s: Sender, ack: nat, rwnd: nat)
    requires ProcessAck(s, ack, rwnd).sender.nrState == OPEN
    ensures ack == s.sndUna ==> s.nrState == OPEN && ProcessAck(s, ack, rwnd).sender.ackTime == s.ackTime + 1 <= 2
    ensures ack != s.sndUna ==> ProcessAck(s, ack, rwnd).sender.ackTime == 0
  {
    if ack != s.sndUna {
      OtherAckSender(s, ack);
      PopAckedKeeps(s.(ackTime := 0), ack);
    }
  }

  /** In OPEN ack_time is the number of duplicates since the last other acknowledgement, at most two. */
  lemma {:induction false} OpenCounts(iss: nat, evs: seq<Event>)
    requires Exec(iss, evs).Some? && Exec(iss, evs).value.sender.nrState == OPEN
    ensures Exec(iss, evs).value.sender.ackTime == DuplicatesSince(iss, evs) <= 2
  {
    if evs != [] {
      var front, ev := evs[..|evs| - 1], evs[|evs| - 1];
      var c := Exec(iss, front).value;
      match ev
      case TimerScan =>
        ScanKeepsCount(c.sender, |c.sender.sndBuf|);
        OpenCounts(iss, front);
      case ArriveAck(ack) =>
        AckCounts(c.sender, ack.number, ack.rwnd);
        if ack.number == c.sender.sndUna {
          OpenCounts(iss, front);
        }
      case _ => OpenCounts(iss, front);
    }
  }

  /** In OPEN an acknowledgement of snd_una is answered, exactly if it is the third since the last
      other one, by sending the oldest outstanding segment again, which starts at snd_una. The third
      also begins recovery: up to the end of all that was sent, with ssthresh half of cwnd, rounded up. */
  lemma FastRetransmit(iss: nat, evs: seq<Event>, ack: Ack)
    requires iss < U32 && Exec(iss, evs).Some?
    requires var c := Exec(iss, evs).value;
             ack in c.acks && ack.number == c.sender.sndUna && c.sender.nrState == OPEN && c.sender.sndBuf != []
    ensures var c := Exec(iss, evs).value;
            var r := ProcessAck(c.sender, ack.number, ack.rwnd);
            && 0 <= Acked(c) < |c.sent| && c.sent[Acked(c)].start == c.sender.sndUna
            && r.sender.sndBuf == c.sender.sndBuf && r.sender.cwnd == c.sender.cwnd
            && if DuplicatesSince(iss, evs) + 1 >= 3
               then && r.resend == Again(c.sent[Acked(c)])
                    && r.sender.nrState == RECOVER && r.sender.recoveryPoint == Boundary(c.iss, c.sent, |c.sent|)
                    && r.sender.ssthresh == (c.sender.cwnd + 1) / 2 && r.sender.ackTime == 3
               else && r.resend == Nothing
                    && r.sender.nrState == OPEN && r.sender.recoveryPoint == c.sender.recoveryPoint
                    && r.sender.ssthresh == c.sender.ssthresh
  {
    var c := Exec(iss, evs).value;
    OpenCounts(iss, evs);
    ExecInv(iss, evs);
    OldestStarts(c);
  }

  lemma OldestStarts(c: Conn)
    requires Inv(c) && c.sender.sndBuf != []
    ensures 0 <= Acked(c) < |c.sent| && c.sender.sndBuf[0].segment == c.sent[Acked(c)]
    ensures c.sent[Acked(c)].start == c.sender.sndUna
  {
    BoundaryOrder(c.iss, c.sent, Acked(c), Acked(c));
  }

  // ---------------------------------------------------------------- what any acknowledgement resends

  /** The first segment still outstanding once everything before boundary `j` is acknowledged. */
  function FirstLeft(c: Conn, j: nat): int {
    if j <= Acked(c) then Acked(c) else j
  }

  /** What an acknowledgement of the first `j` segments is answered by. */
  function AnswerToAck(c: Conn, ack: nat, j: nat, duplicates: nat): Resend
    requires 0 <= Acked(c) <= |c.sent| && j <= |c.sent|
  {
    var left := FirstLeft(c, j);
    if ack == c.sender.sndUna then
      if c.sender.nrState == OPEN && duplicates == 2 && left < |c.sent| then Again(c.sent[left]) else Nothing
    else if c.sender.nrState != RECOVER || c.sender.recoveryPoint <= ack then Nothing
    else if left < |c.sent| then Again(c.sent[left]) else PastTheEnd
  }

  /** Any acknowledgement, new or old, in any state: the oldest segment it leaves outstanding is sent
      again for a third duplicate in OPEN and, in RECOVER, for every one that is no duplicate and below
      the recovery point. Nothing else is. */
  lemma AckIsAnswered(iss: nat, evs: seq<Event>, ack: Ack, j: nat)
    requires iss < U32 && Exec(iss, evs).Some? && ack in Exec(iss, evs).value.acks
    requires var c := Exec(iss, evs).value; j <= |c.sent| && ack.number == Boundary(c.iss, c.sent, j)
    ensures var c := Exec(iss, evs).value;
            && 0 <= Acked(c) <= |c.sent|
            && ProcessAck(c.sender, ack.number, ack.rwnd).resend ==
               AnswerToAck(c, ack.number, j, DuplicatesSince(iss, evs))
  {
    var c := Exec(iss, evs).value;
    ExecInv(iss, evs);
    if c.sender.nrState == OPEN {
      OpenCounts(iss, evs);
    }
    if ack.number == c.sender.sndUna {
      UnaIsAcked(c, j);
      DuplicateAnswer(c, ack.rwnd, DuplicatesSince(iss, evs));
    } else {
      OtherAnswer(c, j, ack.rwnd, DuplicatesSince(iss, evs));
    }
  }

  lemma UnaIsAcked(c: Conn, j: nat)
    requires Inv(c) && j <= |c.sent| && Boundary(c.iss, c.sent, j) == c.sender.sndUna
    ensures j == Acked(c)
  {
    BoundaryOrder(c.iss, c.sent, j, Acked(c));
  }

  lemma OtherAnswer(c: Conn, j: nat, rwnd: nat, duplicates: nat)
    requires Inv(c) && j <= |c.sent| && Boundary(c.iss, c.sent, j) != c.sender.sndUna
    ensures 0 <= Acked(c) <= |c.sent|
    ensures ProcessAck(c.sender, Boundary(c.iss, c.sent, j), rwnd).resend ==
            AnswerToAck(c, Boundary(c.iss, c.sent, j), j, duplicates)
  {
    OtherAckAnswer(c.iss, c.sent, c.sender, j);
  }

  lemma DuplicateAnswer(c: Conn, rwnd: nat, duplicates: nat)
    requires Inv(c) && (c.sender.nrState == OPEN ==> c.sender.ackTime == duplicates <= 2)
    ensures 0 <= Acked(c) <= |c.sent|
    ensures ProcessAck(c.sender, c.sender.sndUna, rwnd).resend ==
            if c.sender.nrState == OPEN && duplicates == 2 && Acked(c) < |c.sent| then Again(c.sent[Acked(c)])
            else Nothing
  {
    if c.sender.sndBuf != [] {
      OldestStarts(c);
    }
  }

  lemma OtherAckAnswer(iss: nat, sent: seq<Segment>, s: Sender, j: nat)
    requires Chain(iss, sent) && SenderInv(iss, sent, s) && j <= |sent|
    ensures var a, ack := |sent| - |s.sndBuf|, Boundary(iss, sent, j);
            var left := if j <= a then a else j;
            OtherAck(s, ack).resend ==
            if s.nrState != RECOVER || s.recoveryPoint <= ack then Nothing
            else if left < |sent| then Again(sent[left]) else PastTheEnd
  {
    var a, ack := |sent| - |s.sndBuf|, Boundary(iss, sent, j);
    var u := PopAcked(s.(ackTime := 0), ack);
    CoveredIsExact(iss, sent, s, j);
    PopAckedReleases(s.(ackTime := 0), ack);
    PopAckedKeeps(s.(ackTime := 0), ack);
    var n := Covered(s.sndBuf, ack);
    assert u.sndBuf != [] ==> u.sndBuf[0] == s.sndBuf[n] && s.sndBuf[n].segment == sent[a + n];
  }

  lemma {:induction false} ReleaseKeepsCwnd(s: Sender, ack: nat)
    requires s.nrState != OPEN
    ensures PopAcked(s, ack).cwnd == s.cwnd && PopAcked(s, ack).cnt == s.cnt && PopAcked(s, ack).ssthresh == s.ssthresh
    decreases |s.sndBuf|
  {
    if s.sndBuf != [] && s.sndBuf[0].seqEnd <= ack {
      ReleaseKeepsCwnd(PopOne(s), ack);
    }
  }

  /** Outside OPEN no acknowledgement but a duplicate in RECOVER touches cwnd, its counter or ssthresh. */
  lemma OnlyOpenGrows(s: Sender, ack: nat, rwnd: nat)
    requires s.nrState != OPEN && (ack == s.sndUna ==> s.nrState == LOSS)
    ensures var t := ProcessAck(s, ack, rwnd).sender;
            t.cwnd == s.cwnd && t.cnt == s.cnt && t.ssthresh == s.ssthresh
  {
    if ack != s.sndUna {
      OtherAckSender(s, ack);
      ReleaseKeepsCwnd(s.(ackTime := 0), ack);
    }
  }

  // ---------------------------------------------------------------- duplicates during recovery

  /** How many of the first `n` events are acknowledgements. */
  function AcksIn(evs: seq<Event>, n: nat): nat
    requires n <= |evs|
  {
    if n == 0 then 0 else AcksIn(evs, n - 1) + if evs[n - 1].ArriveAck? then 1 else 0
  }

  /** How much `n` duplicates take from cwnd: one each for the first three, then one for two. */
  function Drop(n: nat): nat {
    if n <= 3 then n else 3 + (n - 3) / 2
  }

  /** `t` is `s`, just gone into recovery, after `n` more duplicates. */
  ghost predicate ShrunkBy(s: Sender, t: Sender, n: nat) {
    && t.ackTime == (if n <= 3 then 3 - n else (n - 3) % 2)
    && t.cwnd == if Drop(n) < s.cwnd then s.cwnd - Drop(n) else 1
  }

  lemma ShrinkStep(s: Sender, c: Conn, ev: Event, n: nat)
    requires Enabled(c, ev) && ShrunkBy(s, c.sender, n) && 1 <= s.cwnd < U32
    requires c.sender.nrState == RECOVER == Next(c, ev).sender.nrState
    requires ev.ArriveAck? ==> ev.ack.number == c.sender.sndUna
    ensures ShrunkBy(s, Next(c, ev).sender, n + if ev.ArriveAck? then 1 else 0)
  {
    match ev
    case TimerScan => QuietRecovery(c.sender, |c.sender.sndBuf|);
    case _ =>
  }

  /** A scan after which the sender is still in RECOVER has not fired. */
  lemma {:induction false} QuietRecovery(s: Sender, n: nat)
    requires n <= |s.sndBuf| && Scan(s, n).sender.nrState == RECOVER
    ensures s.nrState == RECOVER && Scan(s, n).sender.cwnd == s.cwnd && Scan(s, n).sender.ackTime == s.ackTime
  {
    if n > 0 {
      QuietRecovery(s, n - 1);
    }
  }

  /** While recovery goes on and only duplicates arrive, the n-th of them has taken from cwnd one for
      each of the first three and one for every second after them, never below one. */
  lemma {:induction false} RecoveryShrinks(cs: seq<Conn>, evs: seq<Event>, n: nat)
    requires Stretch(cs, evs) && n <= |evs| && forall i :: 0 <= i < |cs| ==> cs[i].sender.nrState == RECOVER
    requires cs[0].sender.ackTime == 3 && 1 <= cs[0].sender.cwnd < U32
    requires forall i :: 0 <= i < |evs| && evs[i].ArriveAck? ==> evs[i].ack.number == cs[i].sender.sndUna
    ensures ShrunkBy(cs[0].sender, cs[n].sender, AcksIn(evs, n))
  {
    if n > 0 {
      RecoveryShrinks(cs, evs, n - 1);
      assert StepAt(cs, evs, n - 1);
      ShrinkStep(cs[0].sender, cs[n - 1], evs[n - 1], AcksIn(evs, n - 1));
    }
  }

  // ---------------------------------------------------------------- timeouts

  /** How many of the first `n` entries have a timer that runs out with the next scan. */
  function Firing(buf: seq<SendEntry>, n: nat): nat
    requires n <= |buf|
  {
    if n == 0 then 0 else Firing(buf, n - 1) + if buf[n - 1].timeout == TCP_TIMER_SCAN_INTERVAL then 1 else 0
  }

  /** A scan in which no timer runs out leaves the congestion state; with one, cwnd falls to one segment,
      ssthresh to half of cwnd, and recovery is to the end of what was sent; with two or more, ssthresh
      falls to one, because the second halves the window the first has left. */
  lemma {:induction false} ScanCollapses(s: Sender, n: nat)
    requires n <= |s.sndBuf|
    ensures var t, fired := Scan(s, n).sender, Firing(s.sndBuf, n);
            && (forall i :: n <= i < |s.sndBuf| ==> t.sndBuf[i] == s.sndBuf[i])
            && t.sndNxt == s.sndNxt
            && if fired == 0
               then && t.cwnd == s.cwnd && t.ssthresh == s.ssthresh && t.sndWnd == s.sndWnd
                    && t.nrState == s.nrState && t.recoveryPoint == s.recoveryPoint
               else && t.cwnd == 1 && t.sndWnd == MSS && t.nrState == LOSS
                    && t.ssthresh == (if fired == 1 then (s.cwnd + 1) / 2 else 1)
                    && t.recoveryPoint == if s.nrState == LOSS then s.recoveryPoint else s.sndNxt
  {
    if n > 0 {
      ScanCollapses(s, n - 1);
    }
  }

  /** A freshly pushed entry after `r` scans of its first cycle. */
  function InFirstCycle(e: SendEntry, r: nat): SendEntry
    requires r < 14
  {
    if r < 2 then e.(times := 1, timeout := (2 - r) * TCP_TIMER_SCAN_INTERVAL)
    else if r < 6 then e.(times := 2, timeout := (6 - r) * TCP_TIMER_SCAN_INTERVAL)
    else e.(times := 3, timeout := (14 - r) * TCP_TIMER_SCAN_INTERVAL)
  }

  lemma {:induction false} FirstCycle(e: SendEntry, r: nat)
    requires r < 14 && e == Pushed(e)
    ensures TickMany(e, r).0 == InFirstCycle(e, r)
  {
    if r > 0 {
      FirstCycle(e, r - 1);
    }
  }

  lemma NextInCycle(e: SendEntry, r: nat)
    requires r < 14
    ensures InFirstCycle(e, r).timeout == TCP_TIMER_SCAN_INTERVAL <==> r + 1 in {2, 6, 14}
    ensures TickEntry(InFirstCycle(e, r)).resent <==> r + 1 in {2, 6}
  {
  }

  lemma NextMod(p: nat)
    ensures (p + 1) % 14 == if p % 14 == 13 then 0 else p % 14 + 1
  {
  }

  /** Where a pushed entry is after `p` scans, and what the next one does to it. */
  lemma AtScan(e: SendEntry, p: nat)
    requires e == Pushed(e)
    ensures TickMany(e, p).0.timeout == TCP_TIMER_SCAN_INTERVAL <==> (p + 1) % 14 in {2, 6, 0}
    ensures TickEntry(TickMany(e, p).0).resent <==> (p + 1) % 14 in {2, 6}
  {
    CycleOf(e, p);
    NextInCycle(e, p % 14);
    NextMod(p);
  }

  lemma CycleOf(e: SendEntry, p: nat)
    requires e == Pushed(e)
    ensures TickMany(e, p).0 == InFirstCycle(e, p % 14)
  {
    var q, r := p / 14, p % 14;
    FreshCycles(e, q);
    TicksAdd(e, 14 * q, r);
    assert 14 * q + r == p;
    FirstCycle(e, r);
  }

  /** The schedule of a segment that has just been pushed. */
  lemma ScheduleOf(cs: seq<Conn>, evs: seq<Event>, k: nat, i: nat)
    requires Stretch(cs, evs) && Inv(cs[0]) && i < |evs| && k < |cs[0].sent| && Acked(cs[i + 1]) <= k
    requires Waits(cs[0], k) && EntryOf(cs[0], k) == Pushed(EntryOf(cs[0], k))
    ensures Waits(cs[i], k)
    ensures Resends(cs[i], evs[i], k) <==> evs[i].TimerScan? && (Scans(evs, i) + 1) % 14 in {2, 6}
    ensures EntryOf(cs[i], k).timeout == TCP_TIMER_SCAN_INTERVAL <==> (Scans(evs, i) + 1) % 14 in {2, 6, 0}
  {
    TicksThroughStretch(cs, evs, i + 1, k);
    EntryThroughStretch(cs, evs, i, k);
    assert TickAt(cs, evs, i, k);
    AtScan(EntryOf(cs[0], k), Scans(evs, i));
  }

  lemma JustPushed(c: Conn, data: seq<Byte>)
    requires Inv(c) && Enabled(c, AppSend(data))
    ensures var d, k := Next(c, AppSend(data)), |c.sent|;
            Inv(d) && k < |d.sent| && Waits(d, k) && EntryOf(d, k) == Pushed(EntryOf(d, k))
  {
    NextInv(c, AppSend(data));
  }

  /** A segment's timer runs out with the 2nd, 6th and 14th of every 14 scans after it was first sent,
      and with the 2nd and 6th it is sent again, however the sender and the channel fare meanwhile. */
  lemma ResendSchedule(c: Conn, data: seq<Byte>, cs: seq<Conn>, evs: seq<Event>, i: nat)
    requires Reachable(c) && Enabled(c, AppSend(data))
    requires Stretch(cs, evs) && cs[0] == Next(c, AppSend(data)) && i < |evs| && Acked(cs[i + 1]) <= |c.sent|
    ensures Waits(cs[i], |c.sent|)
    ensures Resends(cs[i], evs[i], |c.sent|) <==> evs[i].TimerScan? && (Scans(evs, i) + 1) % 14 in {2, 6}
    ensures EntryOf(cs[i], |c.sent|).timeout == TCP_TIMER_SCAN_INTERVAL <==> (Scans(evs, i) + 1) % 14 in {2, 6, 0}
  {
    ReachableInv(c);
    JustPushed(c, data);
    ScheduleOf(cs, evs, |c.sent|, i);
  }
}
