/**
 Runs of a connection over many events: how the congestion window grows while the sender stays OPEN,
 and how often a segment is sent again while it waits for its acknowledgement.
 */
module TcpRuns {
  import opened Common
  import opened TcpSender
  import opened TcpConnection

  /** How many segments the sender knows to be acknowledged. */
  function Acked(c: Conn): (a: int) {
    |c.sent| - |c.sender.sndBuf|
  }

  /** The `i`-th event leads from the `i`-th state to the next. */
  ghost predicate StepAt(cs: seq<Conn>, evs: seq<Event>, i: nat)
    requires i < |evs| && |cs| == |evs| + 1
  {
    Enabled(cs[i], evs[i]) && cs[i + 1] == Next(cs[i], evs[i])
  }

  /** A stretch of a run: the states `cs` that the events `evs` lead through. */
  ghost predicate Stretch(cs: seq<Conn>, evs: seq<Event>) {
    |cs| == |evs| + 1 && forall i {:trigger StepAt(cs, evs, i)} :: 0 <= i < |evs| ==> StepAt(cs, evs, i)
  }

  lemma {:induction false} StretchInv(cs: seq<Conn>, evs: seq<Event>, n: nat)
    requires Stretch(cs, evs) && Inv(cs[0]) && n <= |evs|
    ensures Inv(cs[n])
  {
    if n > 0 {
      StretchInv(cs, evs, n - 1);
      assert StepAt(cs, evs, n - 1);
      NextInv(cs[n - 1], evs[n - 1]);
    }
  }

  /** Handling an acknowledgement only takes entries from the front. */
  lemma AckTakesFront(s: Sender, ack: nat, rwnd: nat)
    ensures var t := ProcessAck(s, ack, rwnd).sender;
            |t.sndBuf| <= |s.sndBuf| && t.sndBuf == s.sndBuf[|s.sndBuf| - |t.sndBuf|..]
  {
    AckLeaves(s, ack, rwnd);
  }

  // ---------------------------------------------------------------- congestion avoidance

  /** cwnd and the count of acknowledged segments towards the next one. */
  datatype Window = Window(cwnd: nat, cnt: nat)

  function WindowOf(s: Sender): Window {
    Window(s.cwnd, s.cnt)
  }

  /** One more segment acknowledged in OPEN. */
  function GrowOne(w: Window, ssthresh: nat): Window {
    if w.cwnd < ssthresh then w.(cwnd := w.cwnd + 1)
    else if w.cnt + 1 >= w.cwnd then Window(w.cwnd + 1, 0)
    else w.(cnt := w.cnt + 1)
  }

  function GrowMany(w: Window, ssthresh: nat, n: nat): Window {
    if n == 0 then w else GrowOne(GrowMany(w, ssthresh, n - 1), ssthresh)
  }

  lemma {:induction false} GrowFirst(w: Window, ssthresh: nat, n: nat)
    ensures GrowMany(w, ssthresh, n + 1) == GrowMany(GrowOne(w, ssthresh), ssthresh, n)
  {
    if n > 0 {
      GrowFirst(w, ssthresh, n - 1);
    }
  }

  lemma {:induction false} GrowAdds(w: Window, ssthresh: nat, m: nat, n: nat)
    ensures GrowMany(w, ssthresh, m + n) == GrowMany(GrowMany(w, ssthresh, m), ssthresh, n)
  {
    if n > 0 {
      GrowAdds(w, ssthresh, m, n - 1);
    }
  }

  lemma FirstReleaseGrows(s: Sender)
    requires s.nrState == OPEN && s.sndBuf != []
    ensures var u := PopOne(s);
            && u.nrState == OPEN && u.sndBuf == s.sndBuf[1..] && u.ssthresh == s.ssthresh
            && WindowOf(u) == GrowOne(WindowOf(s), s.ssthresh)
  {
    PopOneEffect(s);
  }

  lemma CoveredFirst(buf: seq<SendEntry>, ack: nat)
    requires buf != [] && buf[0].seqEnd <= ack
    ensures Covered(buf, ack) == Covered(buf[1..], ack) + 1
  {
  }

  /** In OPEN the release loop grows the window once for each entry it takes. */
  lemma {:induction false} ReleaseGrows(s: Sender, ack: nat)
    requires s.nrState == OPEN
    ensures WindowOf(PopAcked(s, ack)) == GrowMany(WindowOf(s), s.ssthresh, Covered(s.sndBuf, ack))
    decreases |s.sndBuf|
  {
    if s.sndBuf != [] && s.sndBuf[0].seqEnd <= ack {
      var u, n := PopOne(s), Covered(s.sndBuf[1..], ack);
      FirstReleaseGrows(s);
      ReleaseGrows(u, ack);
      CoveredFirst(s.sndBuf, ack);
      GrowFirst(WindowOf(s), s.ssthresh, n);
    }
  }

  /** `t` is `s` after `n` more segments were acknowledged, as far as the window goes. */
  ghost predicate GrownBy(s: Sender, t: Sender, n: int) {
    n >= 0 && t.ssthresh == s.ssthresh && WindowOf(t) == GrowMany(WindowOf(s), s.ssthresh, n)
  }

  lemma AckGrows(s: Sender, ack: nat, rwnd: nat)
    requires s.nrState == OPEN && ProcessAck(s, ack, rwnd).sender.nrState == OPEN
    ensures var t := ProcessAck(s, ack, rwnd).sender;
            GrownBy(s, t, |s.sndBuf| - |t.sndBuf|)
  {
    if ack != s.sndUna {
      var s1 := s.(ackTime := 0);
      ReleaseGrows(s1, ack);
      PopAckedReleases(s1, ack);
      PopAckedKeeps(s1, ack);
    }
  }

  /** A scan after which the sender is OPEN has not fired. */
  lemma {:induction false} QuietScan(s: Sender, n: nat)
    requires n <= |s.sndBuf| && Scan(s, n).sender.nrState == OPEN
    ensures var t := Scan(s, n).sender;
            s.nrState == OPEN && WindowOf(t) == WindowOf(s) && t.ssthresh == s.ssthresh
  {
    if n > 0 {
      QuietScan(s, n - 1);
    }
  }

  lemma OpenStepGrows(c: Conn, ev: Event)
    requires Enabled(c, ev) && c.sender.nrState == OPEN && Next(c, ev).sender.nrState == OPEN
    ensures GrownBy(c.sender, Next(c, ev).sender, Acked(Next(c, ev)) - Acked(c))
  {
    match ev
    case TimerScan => QuietScan(c.sender, |c.sender.sndBuf|);
    case ArriveAck(ack) => AckGrows(c.sender, ack.number, ack.rwnd);
    case _ =>
  }

  lemma {:induction false} OpenStretchGrows(cs: seq<Conn>, evs: seq<Event>, n: nat)
    requires Stretch(cs, evs) && n <= |evs| && forall i :: 0 <= i < |cs| ==> cs[i].sender.nrState == OPEN
    ensures GrownBy(cs[0].sender, cs[n].sender, Acked(cs[n]) - Acked(cs[0]))
  {
    if n > 0 {
      OpenStretchGrows(cs, evs, n - 1);
      assert StepAt(cs, evs, n - 1);
      OpenStepGrows(cs[n - 1], evs[n - 1]);
      GrownTwice(cs[0].sender, cs[n - 1].sender, cs[n].sender,
                 Acked(cs[n - 1]) - Acked(cs[0]), Acked(cs[n]) - Acked(cs[n - 1]));
    }
  }

  lemma GrownTwice(s: Sender, t: Sender, u: Sender, m: int, n: int)
    requires GrownBy(s, t, m) && GrownBy(t, u, n)
    ensures GrownBy(s, u, m + n)
  {
    GrowAdds(WindowOf(s), s.ssthresh, m, n);
  }

  /** Acknowledged segments that raise the window from `w` to `w + k`. */
  function AcksFor(w: nat, k: nat): nat {
    if k == 0 then 0 else AcksFor(w, k - 1) + w + (k - 1)
  }

  lemma {:induction false} AcksForClosed(w: nat, k: nat)
    ensures 2 * AcksFor(w, k) == 2 * k * w + k * (k - 1)
  {
    if k > 0 {
      AcksForClosed(w, k - 1);
    }
  }

  lemma {:induction false} GrowManyCounts(w: Window, ssthresh: nat, n: nat) returns (k: nat)
    requires w.cwnd >= 1 && w.cwnd >= ssthresh && w.cnt == 0
    ensures AcksFor(w.cwnd, k) <= n < AcksFor(w.cwnd, k + 1)
    ensures GrowMany(w, ssthresh, n) == Window(w.cwnd + k, n - AcksFor(w.cwnd, k))
  {
    if n == 0 {
      k := 0;
    } else {
      k := GrowManyCounts(w, ssthresh, n - 1);
      if n == AcksFor(w.cwnd, k + 1) {
        k := k + 1;
      }
    }
  }

  lemma {:induction false} AcksForGrows(w: nat, j: nat, k: nat)
    requires w >= 1
    ensures j < k ==> AcksFor(w, j + 1) <= AcksFor(w, k)
    decreases k
  {
    if j < k - 1 {
      AcksForGrows(w, j, k - 1);
    }
  }

  lemma GreatestIff(w: Window, ssthresh: nat, n: nat, k: nat)
    requires w.cwnd >= 1 && w.cwnd >= ssthresh && w.cnt == 0
    ensures GrowMany(w, ssthresh, n).cwnd == w.cwnd + k <==>
            2 * k * w.cwnd + k * (k - 1) <= 2 * n < 2 * (k + 1) * w.cwnd + (k + 1) * k
  {
    var m := GrowManyCounts(w, ssthresh, n);
    AcksForClosed(w.cwnd, k);
    AcksForClosed(w.cwnd, k + 1);
    AcksForGrows(w.cwnd, k, m);
    AcksForGrows(w.cwnd, m, k);
  }

  /** One acknowledgement in OPEN: from cwnd = w at or above ssthresh with an empty counter the release
      of n entries makes cwnd = w + k for the greatest k with k w + k (k - 1) / 2 <= n. */
  lemma ReleaseAvoidsCongestion(s: Sender, ack: nat, k: nat)
    requires s.nrState == OPEN && s.cwnd >= 1 && s.cwnd >= s.ssthresh && s.cnt == 0
    ensures var n := Covered(s.sndBuf, ack);
            PopAcked(s, ack).cwnd == s.cwnd + k <==>
            2 * k * s.cwnd + k * (k - 1) <= 2 * n < 2 * (k + 1) * s.cwnd + (k + 1) * k
  {
    ReleaseGrows(s, ack);
    GreatestIff(WindowOf(s), s.ssthresh, Covered(s.sndBuf, ack), k);
  }

  /** Any stretch of a run during which the sender stays OPEN, whatever is sent, lost, repeated or
      scanned in it: if n segments are newly acknowledged, cwnd goes from w to w + k for the greatest
      k with k w + k (k - 1) / 2 <= n. */
  lemma CongestionAvoidance(cs: seq<Conn>, evs: seq<Event>, k: nat)
    requires Stretch(cs, evs) && Reachable(cs[0]) && forall i :: 0 <= i < |cs| ==> cs[i].sender.nrState == OPEN
    requires cs[0].sender.cwnd >= cs[0].sender.ssthresh && cs[0].sender.cnt == 0
    ensures var n, w := Acked(cs[|evs|]) - Acked(cs[0]), cs[0].sender.cwnd;
            cs[|evs|].sender.cwnd == w + k <==>
            2 * k * w + k * (k - 1) <= 2 * n < 2 * (k + 1) * w + (k + 1) * k
  {
    WindowIsPositive(cs[0]);
    OpenStretchGrows(cs, evs, |evs|);
    GreatestIff(WindowOf(cs[0].sender), cs[0].sender.ssthresh, Acked(cs[|evs|]) - Acked(cs[0]), k);
  }

  lemma {:induction false} GrowsByOne(w: Window, ssthresh: nat, n: nat)
    requires w.cwnd + n <= ssthresh
    ensures GrowMany(w, ssthresh, n) == Window(w.cwnd + n, w.cnt)
  {
    if n > 0 {
      GrowsByOne(w, ssthresh, n - 1);
    }
  }

  /** Below ssthresh every newly acknowledged segment raises cwnd by one, over any stretch of a run
      during which the sender stays OPEN. */
  lemma SlowStart(cs: seq<Conn>, evs: seq<Event>)
    requires Stretch(cs, evs) && forall i :: 0 <= i < |cs| ==> cs[i].sender.nrState == OPEN
    requires cs[0].sender.cwnd + Acked(cs[|evs|]) - Acked(cs[0]) <= cs[0].sender.ssthresh
    ensures cs[|evs|].sender.cwnd == cs[0].sender.cwnd + Acked(cs[|evs|]) - Acked(cs[0])
    ensures cs[|evs|].sender.cnt == cs[0].sender.cnt && cs[|evs|].sender.ssthresh == cs[0].sender.ssthresh
  {
    OpenStretchGrows(cs, evs, |evs|);
    GrowsByOne(WindowOf(cs[0].sender), cs[0].sender.ssthresh, Acked(cs[|evs|]) - Acked(cs[0]));
  }

  lemma WindowIsPositive(c: Conn)
    requires Reachable(c)
    ensures c.sender.cwnd >= 1
  {
    ReachableInv(c);
  }

  // ---------------------------------------------------------------- retransmission schedule

  datatype Tick = Tick(entry: SendEntry, resent: bool)

  /** What one timer scan does to one waiting segment. */
  function TickEntry(e: SendEntry): Tick {
    var f := e.(timeout := e.timeout - TCP_TIMER_SCAN_INTERVAL);
    if f.timeout != 0 then Tick(f, false)
    else if f.times == 3 then Tick(f.(times := 1, timeout := TCP_RETRANS_INTERVAL_INITIAL), false)
    else Tick(f.(times := f.times + 1,
                 timeout := if f.times + 1 == 2 then 2 * TCP_RETRANS_INTERVAL_INITIAL
                            else 4 * TCP_RETRANS_INTERVAL_INITIAL), true)
  }

  /** A scan ticks every entry once, whatever else the timer does, and sends the entries that fire. */
  lemma {:induction false} ScanTicksEachEntry(s: Sender, n: nat)
    requires n <= |s.sndBuf|
    ensures var r := Scan(s, n);
            && (forall i :: 0 <= i < |s.sndBuf| ==>
                  r.sender.sndBuf[i] == if i < n then TickEntry(s.sndBuf[i]).entry else s.sndBuf[i])
            && (forall i :: 0 <= i < n && TickEntry(s.sndBuf[i]).resent ==> s.sndBuf[i].segment in r.resent)
            && (forall x :: x in r.resent ==>
                  exists i :: 0 <= i < n && TickEntry(s.sndBuf[i]).resent && s.sndBuf[i].segment == x)
  {
    if n > 0 {
      ScanTicksEachEntry(s, n - 1);
      var before := Scan(s, n - 1);
      var one := ScanEntry(before.sender, n - 1);
      assert before.sender.sndBuf[n - 1] == s.sndBuf[n - 1];
      assert one.sender.sndBuf == before.sender.sndBuf[n - 1 := TickEntry(s.sndBuf[n - 1]).entry];
      assert one.resent == if TickEntry(s.sndBuf[n - 1]).resent then [s.sndBuf[n - 1].segment] else [];
    }
  }

  /** How often an entry is sent again during `n` scans, and what becomes of it. */
  function TickMany(e: SendEntry, n: nat): (SendEntry, nat) {
    if n == 0 then (e, 0)
    else
      var (f, k) := TickMany(e, n - 1);
      (TickEntry(f).entry, k + if TickEntry(f).resent then 1 else 0)
  }

  lemma {:induction false} TicksAdd(e: SendEntry, m: nat, n: nat)
    ensures var (f, j) := TickMany(e, m);
            var (g, k) := TickMany(f, n);
            TickMany(e, m + n) == (g, j + k)
  {
    if n > 0 {
      TicksAdd(e, m, n - 1);
    }
  }

  lemma OneCycle(e: SendEntry)
    requires e.times == 1 && e.timeout == TCP_RETRANS_INTERVAL_INITIAL
    ensures TickMany(e, 14) == (e, 2)
  {
    var e2 := e.(times := 2, timeout := 2 * TCP_RETRANS_INTERVAL_INITIAL);
    var e3 := e.(times := 3, timeout := 4 * TCP_RETRANS_INTERVAL_INITIAL);
    Countdown(e, 1);
    assert TickMany(e, 2) == (e2, 1);
    Countdown(e2, 3);
    assert TickMany(e2, 4) == (e3, 1);
    Countdown(e3, 7);
    assert TickMany(e3, 8) == (e, 0);
    TicksAdd(e, 2, 4);
    TicksAdd(e, 6, 8);
  }

  lemma {:induction false} Countdown(e: SendEntry, n: nat)
    requires e.timeout > n * TCP_TIMER_SCAN_INTERVAL
    ensures TickMany(e, n) == (e.(timeout := e.timeout - n * TCP_TIMER_SCAN_INTERVAL), 0)
  {
    if n > 0 {
      Countdown(e, n - 1);
    }
  }

  lemma {:induction false} FreshCycles(e: SendEntry, cycles: nat)
    requires e.times == 1 && e.timeout == TCP_RETRANS_INTERVAL_INITIAL
    ensures TickMany(e, 14 * cycles) == (e, 2 * cycles)
  {
    if cycles > 0 {
      FreshCycles(e, cycles - 1);
      OneCycle(e);
      TicksAdd(e, 14 * (cycles - 1), 14);
    }
  }

  /** The entry as it was pushed. */
  function Pushed(e: SendEntry): SendEntry {
    e.(times := 1, timeout := TCP_RETRANS_INTERVAL_INITIAL)
  }

  /** The entry is at some point of the cycle that starts when it is pushed. */
  ghost predicate InCycle(e: SendEntry) {
    exists p: nat :: TickMany(Pushed(e), p).0 == e
  }

  lemma TickStaysInCycle(e: SendEntry)
    requires InCycle(e)
    ensures InCycle(TickEntry(e).entry)
  {
    var p: nat :| TickMany(Pushed(e), p).0 == e;
    assert Pushed(TickEntry(e).entry) == Pushed(e) && TickMany(Pushed(e), p + 1).0 == TickEntry(e).entry;
  }

  /** From any point of it, 14 scans are one cycle, with two of them sending. */
  lemma AnyCycles(e: SendEntry, cycles: nat)
    requires InCycle(e)
    ensures TickMany(e, 14 * cycles) == (e, 2 * cycles)
  {
    var f := Pushed(e);
    var p: nat :| TickMany(f, p).0 == e;
    FreshCycles(f, cycles);
    TicksAdd(f, p, 14 * cycles);
    TicksAdd(f, 14 * cycles, p);
  }

  // ---------------------------------------------------------------- one segment through a run

  ghost predicate AllInCycle(buf: seq<SendEntry>) {
    forall i {:trigger InCycle(buf[i])} :: 0 <= i < |buf| ==> InCycle(buf[i])
  }

  lemma StepStaysInCycle(c: Conn, ev: Event)
    requires Enabled(c, ev) && AllInCycle(c.sender.sndBuf)
    ensures AllInCycle(Next(c, ev).sender.sndBuf)
  {
    var before, after := c.sender.sndBuf, Next(c, ev).sender.sndBuf;
    match ev
    case AppSend(data) =>
      var e := after[|before|];
      assert TickMany(Pushed(e), 0).0 == e;
      forall i | 0 <= i < |after| ensures InCycle(after[i]) {
        assert i < |before| ==> after[i] == before[i] && InCycle(before[i]);
      }
    case TimerScan =>
      ScanTicksEachEntry(c.sender, |before|);
      forall i | 0 <= i < |after| ensures InCycle(after[i]) {
        assert InCycle(before[i]);
        TickStaysInCycle(before[i]);
      }
    case ArriveAck(ack) =>
      AckTakesFront(c.sender, ack.number, ack.rwnd);
      forall i | 0 <= i < |after| ensures InCycle(after[i]) {
        assert InCycle(before[|before| - |after| + i]);
      }
    case _ =>
  }

  lemma {:induction false} ExecInCycle(iss: nat, evs: seq<Event>)
    requires Exec(iss, evs).Some?
    ensures AllInCycle(Exec(iss, evs).value.sender.sndBuf)
  {
    if evs != [] {
      ExecInCycle(iss, evs[..|evs| - 1]);
      StepStaysInCycle(Exec(iss, evs[..|evs| - 1]).value, evs[|evs| - 1]);
    }
  }

  /** The `k`-th segment ever sent is known to both sides of the count and still waits. */
  ghost predicate Waits(c: Conn, k: nat) {
    0 <= Acked(c) <= k < |c.sent|
  }

  function EntryOf(c: Conn, k: nat): SendEntry
    requires Waits(c, k)
  {
    c.sender.sndBuf[k - Acked(c)]
  }

  /** The scan sends the `k`-th segment again. */
  predicate Resends(c: Conn, ev: Event, k: nat)
    requires k < |c.sent|
  {
    ev.TimerScan? && c.sent[k] in Scan(c.sender, |c.sender.sndBuf|).resent
  }

  lemma WaitingEntry(c: Conn, k: nat)
    requires Inv(c) && Waits(c, k)
    ensures EntryOf(c, k).segment == c.sent[k]
    ensures forall i :: 0 <= i < |c.sender.sndBuf| && c.sender.sndBuf[i].segment == c.sent[k] ==> i == k - Acked(c)
  {
    forall i | 0 <= i < |c.sender.sndBuf| && c.sender.sndBuf[i].segment == c.sent[k] ensures i == k - Acked(c) {
      assert c.sender.sndBuf[i].segment == c.sent[Acked(c) + i];
      SameSegment(c.iss, c.sent, Acked(c) + i, k);
    }
  }

  lemma SameSegment(iss: nat, sent: seq<Segment>, j: nat, k: nat)
    requires Chain(iss, sent) && j < |sent| && k < |sent| && sent[j] == sent[k]
    ensures j == k
  {
    BoundaryOrder(iss, sent, j, k);
    BoundaryOrder(iss, sent, k, j);
  }

  lemma ScanSendsIff(c: Conn, k: nat)
    requires Inv(c) && Waits(c, k)
    ensures Resends(c, TimerScan, k) <==> TickEntry(EntryOf(c, k)).resent
  {
    WaitingEntry(c, k);
    ScanSends(c.sender, c.sent[k], k - Acked(c));
  }

  lemma ScanSends(s: Sender, x: Segment, i: nat)
    requires i < |s.sndBuf| && s.sndBuf[i].segment == x
    requires forall j :: 0 <= j < |s.sndBuf| && s.sndBuf[j].segment == x ==> j == i
    ensures x in Scan(s, |s.sndBuf|).resent <==> TickEntry(s.sndBuf[i]).resent
  {
    ScanTicksEachEntry(s, |s.sndBuf|);
  }

  lemma ScanTicksAt(s: Sender, i: nat)
    requires i < |s.sndBuf|
    ensures var t := Scan(s, |s.sndBuf|).sender;
            |t.sndBuf| == |s.sndBuf| && t.sndBuf[i] == TickEntry(s.sndBuf[i]).entry
  {
    ScanTicksEachEntry(s, |s.sndBuf|);
  }

  lemma ScanStep(c: Conn, k: nat)
    requires Inv(c) && Waits(c, k)
    ensures Waits(Next(c, TimerScan), k) && EntryOf(Next(c, TimerScan), k) == TickEntry(EntryOf(c, k)).entry
    ensures Resends(c, TimerScan, k) <==> TickEntry(EntryOf(c, k)).resent
  {
    ScanTicksAt(c.sender, k - Acked(c));
    ScanSendsIff(c, k);
  }

  /** `after` is `before` without some entries in front and with `more` new ones behind. */
  ghost predicate Shifted(before: seq<SendEntry>, after: seq<SendEntry>, gone: nat, more: int) {
    gone <= |before| && before[gone..] <= after && |after| == |before| - gone + more
  }

  /** Whatever an event other than a scan does, send_buf loses entries in front and gains them behind. */
  lemma OtherStep(c: Conn, ev: Event) returns (gone: nat)
    requires Enabled(c, ev) && !ev.TimerScan?
    ensures Shifted(c.sender.sndBuf, Next(c, ev).sender.sndBuf, gone, |Next(c, ev).sent| - |c.sent|)
    ensures |c.sent| <= |Next(c, ev).sent|
  {
    if ev.ArriveAck? {
      AckTakesFront(c.sender, ev.ack.number, ev.ack.rwnd);
      gone := |c.sender.sndBuf| - |Next(c, ev).sender.sndBuf|;
    } else {
      gone := 0;
    }
  }

  /** One event does nothing to a waiting entry but tick it, if it is a scan. */
  lemma EntryStep(c: Conn, ev: Event, k: nat)
    requires Inv(c) && Enabled(c, ev) && k < |c.sent| && Acked(Next(c, ev)) <= k
    ensures Waits(c, k) && Waits(Next(c, ev), k)
    ensures EntryOf(Next(c, ev), k) == if ev.TimerScan? then TickEntry(EntryOf(c, k)).entry else EntryOf(c, k)
    ensures Resends(c, ev, k) <==> ev.TimerScan? && TickEntry(EntryOf(c, k)).resent
  {
    AckedIsNat(c);
    if ev.TimerScan? {
      assert Acked(Next(c, TimerScan)) == Acked(c);
      ScanStep(c, k);
    } else {
      var gone := OtherStep(c, ev);
      KeptEntry(c, Next(c, ev), gone, k);
    }
  }

  lemma KeptEntry(c: Conn, d: Conn, gone: nat, k: nat)
    requires 0 <= Acked(c) && k < |c.sent| <= |d.sent| && Acked(d) <= k
    requires Shifted(c.sender.sndBuf, d.sender.sndBuf, gone, |d.sent| - |c.sent|)
    ensures Waits(c, k) && Waits(d, k) && EntryOf(d, k) == EntryOf(c, k)
  {
    assert d.sender.sndBuf[k - Acked(d)] == c.sender.sndBuf[gone..][k - Acked(d)];
  }

  /** The `i`-th event leaves the `k`-th segment waiting, its entry ticked by a scan only. */
  ghost predicate TickAt(cs: seq<Conn>, evs: seq<Event>, i: nat, k: nat)
    requires i < |evs| && |cs| == |evs| + 1
  {
    && Waits(cs[i], k) && Waits(cs[i + 1], k)
    && EntryOf(cs[i + 1], k) == (if evs[i].TimerScan? then TickEntry(EntryOf(cs[i], k)).entry else EntryOf(cs[i], k))
    && (Resends(cs[i], evs[i], k) <==> evs[i].TimerScan? && TickEntry(EntryOf(cs[i], k)).resent)
  }

  lemma EntryStepAt(cs: seq<Conn>, evs: seq<Event>, i: nat, k: nat)
    requires Stretch(cs, evs) && i < |evs| && Inv(cs[i]) && k < |cs[i].sent| && Acked(cs[i + 1]) <= k
    ensures TickAt(cs, evs, i, k)
  {
    assert StepAt(cs, evs, i);
    EntryStep(cs[i], evs[i], k);
  }

  lemma AckedIsNat(c: Conn)
    requires Inv(c)
    ensures 0 <= Acked(c)
  {
  }

  /** How many of the first `n` events are timer scans. */
  function Scans(evs: seq<Event>, n: nat): nat
    requires n <= |evs|
  {
    if n == 0 then 0 else Scans(evs, n - 1) + if evs[n - 1].TimerScan? then 1 else 0
  }

  /** How many of them send the `k`-th segment again. */
  function ResendCount(cs: seq<Conn>, evs: seq<Event>, n: nat, k: nat): nat
    requires n <= |evs| < |cs|
  {
    if n == 0 then 0
    else ResendCount(cs, evs, n - 1, k) +
         if k < |cs[n - 1].sent| && Resends(cs[n - 1], evs[n - 1], k) then 1 else 0
  }

  lemma {:induction false} TicksThroughStretch(cs: seq<Conn>, evs: seq<Event>, n: nat, k: nat)
    requires Stretch(cs, evs) && Inv(cs[0]) && n <= |evs|
    requires k < |cs[0].sent| && Acked(cs[n]) <= k
    ensures Waits(cs[0], k) && forall i {:trigger TickAt(cs, evs, i, k)} :: 0 <= i < n ==> TickAt(cs, evs, i, k)
  {
    if n == 0 {
      AckedIsNat(cs[0]);
    } else {
      StretchInv(cs, evs, n - 1);
      SentGrows(cs, evs, n - 1);
      EntryStepAt(cs, evs, n - 1, k);
      TicksThroughStretch(cs, evs, n - 1, k);
    }
  }

  lemma {:induction false} EntryThroughStretch(cs: seq<Conn>, evs: seq<Event>, n: nat, k: nat)
    requires |cs| == |evs| + 1 && n <= |evs| && Waits(cs[0], k)
    requires forall i {:trigger TickAt(cs, evs, i, k)} :: 0 <= i < n ==> TickAt(cs, evs, i, k)
    ensures Waits(cs[n], k)
    ensures (EntryOf(cs[n], k), ResendCount(cs, evs, n, k)) == TickMany(EntryOf(cs[0], k), Scans(evs, n))
  {
    if n > 0 {
      EntryThroughStretch(cs, evs, n - 1, k);
      assert TickAt(cs, evs, n - 1, k);
    }
  }

  lemma {:induction false} SentGrows(cs: seq<Conn>, evs: seq<Event>, n: nat)
    requires Stretch(cs, evs) && n <= |evs|
    ensures |cs[0].sent| <= |cs[n].sent|
  {
    if n > 0 {
      SentGrows(cs, evs, n - 1);
      assert StepAt(cs, evs, n - 1);
    }
  }

  /** While a segment waits for its acknowledgement it is sent again by exactly two of every 14 timer
      scans, for ever and from any moment on, whatever else is sent, acknowledged or read meanwhile. */
  lemma NeverGivenUp(cs: seq<Conn>, evs: seq<Event>, k: nat, cycles: nat)
    requires Stretch(cs, evs) && Reachable(cs[0])
    requires k < |cs[0].sent| && Acked(cs[|evs|]) <= k && Scans(evs, |evs|) == 14 * cycles
    ensures ResendCount(cs, evs, |evs|, k) == 2 * cycles
  {
    StartsInCycle(cs[0]);
    TicksThroughStretch(cs, evs, |evs|, k);
    EntryThroughStretch(cs, evs, |evs|, k);
    assert InCycle(cs[0].sender.sndBuf[k - Acked(cs[0])]);
    AnyCycles(EntryOf(cs[0], k), cycles);
  }

  lemma StartsInCycle(c: Conn)
    requires Reachable(c)
    ensures Inv(c) && AllInCycle(c.sender.sndBuf)
  {
    var iss: nat, evs :| iss < U32 && Exec(iss, evs) == Some(c);
    ExecInv(iss, evs);
    ExecInCycle(iss, evs);
  }
}
