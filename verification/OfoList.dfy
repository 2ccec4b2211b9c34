/**
 rcv_ofo_buf as the linked list it is. write_ofo_buffer starts from a copy of the list head on its
 stack, so a segment that belongs before all waiting ones is linked to the copy and lost: the list
 still shows what it showed, its first entry points back to the lost one, and deleting that entry
 later leaves the head pointing at it. What a run makes of that closes the module.
 */
module OfoList {
  import opened Common
  import opened TcpSender
  import opened TcpReceiver
  import opened TcpConnection
  import opened TcpTheorems

  /** A list head or an entry of the list. */
  class Node {
    var next: Node?
    var prev: Node?
    const segment: Segment

    constructor (segment: Segment)
      ensures this.segment == segment && next == null && prev == null
    {
      this.segment := segment;
      next, prev := null, null;
    }
  }

  function Circle(head: Node, xs: seq<Node>): seq<Node> {
    [head] + xs + [head]
  }

  /** `a` leads to `b` and, if `both`, `b` back to `a`. */
  ghost predicate Joined(a: Node, b: Node, both: bool)
    reads a, b
  {
    a.next == b && (both ==> b.prev == a)
  }

  /** The entries lie in a circle; all neighbours but perhaps those at `i` are joined, those before
      position `from` at least forwards. */
  ghost predicate LinkedBut(head: Node, xs: seq<Node>, from: nat, i: int)
    reads head, xs
  {
    && head !in xs && Distinct(xs)
    && forall k :: 0 <= k <= |xs| && k != i ==> Joined(Circle(head, xs)[k], Circle(head, xs)[k + 1], k >= from)
  }

  /** Walking forwards from the head meets exactly `xs`, and so does walking back to position `from`. */
  ghost predicate Linked(head: Node, xs: seq<Node>, from: nat)
    reads head, xs
  {
    LinkedBut(head, xs, from, -1)
  }

  /** What the links are when nothing freed is in the way. */
  ghost predicate HasLinks(head: Node, xs: seq<Node>, list: OfoLinks)
    reads head, xs
  {
    match list
    case Whole => Linked(head, xs, 0)
    case Loose =>
      && Linked(head, xs, 1) && xs != []
      && xs[0].prev != null && xs[0].prev !in xs && xs[0].prev != head
    case Freed => false
  }

  /** From where on walking back works. */
  function From(list: OfoLinks): nat {
    if list == Whole then 0 else 1
  }

  function SegmentsIn(xs: seq<Node>): (s: seq<Segment>)
    ensures |s| == |xs|
  {
    seq(|xs|, i requires 0 <= i < |xs| => xs[i].segment)
  }

  /** list_insert */
  method ListInsert(node: Node, prev: Node, next: Node)
    requires node != prev && node != next
    modifies node, prev, next
    ensures node.prev == prev && node.next == next && prev.next == node && next.prev == node
    ensures prev != next ==> prev.prev == old(prev.prev) && next.next == old(next.next)
  {
    next.prev := node;
    prev.next := node;
    node.next := next;
    node.prev := prev;
  }

  /** list_delete_entry */
  method ListDelete(entry: Node)
    requires entry.next != null && entry.prev != null && entry !in {entry.next, entry.prev}
    modifies entry.next, entry.prev
    ensures old(entry.next).prev == old(entry.prev) && old(entry.prev).next == old(entry.next)
    ensures old(entry.prev) != old(entry.next) ==>
              old(entry.next).next == old(entry.next.next) && old(entry.prev).prev == old(entry.prev.prev)
  {
    entry.next.prev := entry.prev;
    entry.prev.next := entry.next;
  }

  /** The circle after `node` is put behind the first `i` entries. */
  lemma CircleInserted(head: Node, xs: seq<Node>, node: Node, i: nat)
    requires i <= |xs|
    ensures var old_, new_ := Circle(head, xs), Circle(head, xs[..i] + [node] + xs[i..]);
            && |new_| == |old_| + 1
            && forall k :: 0 <= k < |new_| ==>
                 new_[k] == if k <= i then old_[k] else if k == i + 1 then node else old_[k - 1]
  {
  }

  /** Joining `node` to both sides of a gap closes it. */
  lemma Inserted(head: Node, xs: seq<Node>, node: Node, from: nat, i: nat)
    requires from <= i <= |xs| && LinkedBut(head, xs, from, i) && node !in xs && node != head
    requires Joined(Circle(head, xs)[i], node, true) && Joined(node, Circle(head, xs)[i + 1], true)
    ensures Linked(head, xs[..i] + [node] + xs[i..], from)
  {
    var ys := xs[..i] + [node] + xs[i..];
    var before, after := Circle(head, xs), Circle(head, ys);
    CircleInserted(head, xs, node, i);
    forall k | 0 <= k <= |ys| ensures Joined(after[k], after[k + 1], k >= from) {
      if k < i {
        assert Joined(before[k], before[k + 1], k >= from);
      } else if k > i + 1 {
        assert Joined(before[k - 1], before[k - 1 + 1], k - 1 >= from);
      }
    }
  }

  /** Writing between two neighbours leaves the rest of the circle joined. */
  lemma CircleDiffers(head: Node, xs: seq<Node>)
    requires head !in xs && Distinct(xs)
    ensures forall j, k :: 0 <= j < k <= |xs| ==> Circle(head, xs)[j] != Circle(head, xs)[k]
    ensures forall j, k :: 0 < j < k <= |xs| + 1 ==> Circle(head, xs)[j] != Circle(head, xs)[k]
  {
  }

  lemma Neighbours(head: Node, xs: seq<Node>, from: nat, i: nat)
    requires Linked(head, xs, from) && i <= |xs|
    ensures Joined(Circle(head, xs)[i], Circle(head, xs)[i + 1], i >= from)
  {
  }

  /** The walk past the entries that start earlier. */
  method FindPlace(head: Node, headExt: Node, start: nat, ghost xs: seq<Node>, ghost list: OfoLinks)
    returns (last: Node, pos: Node, ghost i: nat)
    requires Linked(head, xs, From(list)) && headExt.next == head.next
    ensures i <= |xs| && pos == Circle(head, xs)[i + 1] && last == if i == 0 then headExt else Circle(head, xs)[i]
    ensures forall j :: 0 <= j < i ==> start > xs[j].segment.start
    ensures i < |xs| ==> start <= xs[i].segment.start
  {
    i := 0;
    Neighbours(head, xs, From(list), 0);
    last, pos := headExt, head.next;
    while pos != head && start > pos.segment.start
      invariant i <= |xs| && pos == Circle(head, xs)[i + 1]
      invariant last == if i == 0 then headExt else Circle(head, xs)[i]
      invariant forall j :: 0 <= j < i ==> start > xs[j].segment.start
      decreases |xs| - i
    {
      Neighbours(head, xs, From(list), i + 1);
      last := pos;
      pos := pos.next;
      i := i + 1;
    }
  }

  /** Linking a new entry between the neighbours at `i`. */
  method LinkBetween(head: Node, node: Node, prev: Node, next: Node, ghost xs: seq<Node>, ghost list: OfoLinks,
                     ghost i: nat)
    requires HasLinks(head, xs, list) && From(list) <= i <= |xs|
    requires node !in xs && node != head && (xs != [] ==> node != xs[0].prev)
    requires prev == Circle(head, xs)[i] && next == Circle(head, xs)[i + 1]
    modifies node, prev, next
    ensures HasLinks(head, xs[..i] + [node] + xs[i..], list)
  {
    ghost var from := From(list);
    ghost var ring := Circle(head, xs);
    CircleDiffers(head, xs);
    ListInsert(node, prev, next);
    assert LinkedBut(head, xs, from, i) by {
      forall k | 0 <= k <= |xs| && k != i ensures Joined(ring[k], ring[k + 1], k >= from) {
        assert old(Joined(ring[k], ring[k + 1], k >= from));
      }
    }
    Inserted(head, xs, node, from, i);
  }

  /** Linking a new entry to a node outside the list leaves what the list shows. */
  method LinkAside(head: Node, node: Node, outside: Node, ghost xs: seq<Node>, ghost list: OfoLinks)
    requires Linked(head, xs, From(list)) && xs != []
    requires node !in xs && node != head && outside !in xs && outside != head && node != outside
    modifies node, outside, xs[0]
    ensures HasLinks(head, xs, Loose) && xs[0].prev == node
  {
    Neighbours(head, xs, From(list), 0);
    ghost var ring := Circle(head, xs);
    CircleDiffers(head, xs);
    ListInsert(node, outside, head.next);
    forall k | 0 <= k <= |xs| ensures Joined(ring[k], ring[k + 1], k >= 1) {
      assert old(Joined(ring[k], ring[k + 1], k >= From(list)));
    }
  }

  lemma InsertedSegments(xs: seq<Node>, node: Node, i: nat)
    requires i <= |xs| && forall j :: 0 <= j < i ==> node.segment.start > xs[j].segment.start
    requires i < |xs| ==> node.segment.start < xs[i].segment.start
    ensures SegmentsIn(xs[..i] + [node] + xs[i..]) == SortedInsert(SegmentsIn(xs), node.segment)
  {
    InsertSkips(SegmentsIn(xs), node.segment, i);
    assert SegmentsIn(xs[..i] + [node] + xs[i..]) == SegmentsIn(xs)[..i] + [node.segment] + SegmentsIn(xs)[i..];
  }

  lemma PresentSegment(xs: seq<Node>, segment: Segment, i: nat)
    requires i < |xs| && forall j :: 0 <= j < i ==> segment.start > xs[j].segment.start
    requires segment.start == xs[i].segment.start
    ensures SortedInsert(SegmentsIn(xs), segment) == SegmentsIn(xs)
  {
    InsertSkips(SegmentsIn(xs), segment, i);
    assert SegmentsIn(xs)[..i] + SegmentsIn(xs)[i..] == SegmentsIn(xs);
  }

  /** What write_ofo_buffer does where its walk has ended. */
  method LinkIn(head: Node, headExt: Node, node: Node, last: Node, pos: Node, ghost xs: seq<Node>,
                ghost list: OfoLinks, ghost i: nat) returns (ghost ys: seq<Node>)
    requires HasLinks(head, xs, list) && i <= |xs| && node !in xs && node != head && node != headExt
    requires headExt !in xs && headExt != head && (xs != [] ==> node != xs[0].prev)
    requires pos == Circle(head, xs)[i + 1] && last == if i == 0 then headExt else Circle(head, xs)[i]
    requires forall j :: 0 <= j < i ==> node.segment.start > xs[j].segment.start
    requires i < |xs| ==> node.segment.start <= xs[i].segment.start
    modifies head, headExt, node, xs
    ensures SegmentsIn(ys) == InsertOfo(SegmentsIn(xs), node.segment)
    ensures HasLinks(head, ys, if GoesFirst(SegmentsIn(xs), node.segment) then Loose else list)
    ensures GoesFirst(SegmentsIn(xs), node.segment) ==> ys == xs && xs[0].prev == node
  {
    ys := xs;
    if pos != head && node.segment.start == pos.segment.start {
      PresentSegment(xs, node.segment, i);
    } else if pos != head && last == headExt {
      LinkAside(head, node, last, xs, list);
    } else {
      Neighbours(head, xs, From(list), i);
      LinkBetween(head, node, if pos == head then head.prev else last, pos, xs, list, i);
      InsertedSegments(xs, node, i);
      ys := xs[..i] + [node] + xs[i..];
    }
  }

  /** write_ofo_buffer, whose `head_ext` is a copy of the list head on the stack. */
  method WriteOfoBuffer(head: Node, segment: Segment, ghost xs: seq<Node>, ghost list: OfoLinks)
    returns (node: Node, ghost ys: seq<Node>)
    requires HasLinks(head, xs, list)
    modifies head, xs
    ensures fresh(node) && SegmentsIn(ys) == InsertOfo(SegmentsIn(xs), segment)
    ensures HasLinks(head, ys, if GoesFirst(SegmentsIn(xs), segment) then Loose else list)
    ensures GoesFirst(SegmentsIn(xs), segment) ==> ys == xs && xs[0].prev == node
  {
    node := new Node(segment);
    var headExt := new Node(head.segment);
    headExt.next, headExt.prev := head.next, head.prev;
    var last, pos, i := FindPlace(head, headExt, segment.start, xs, list);
    ys := LinkIn(head, headExt, node, last, pos, xs, list, i);
  }

  lemma CircleRest(head: Node, xs: seq<Node>)
    requires xs != []
    ensures var old_, new_ := Circle(head, xs), Circle(head, xs[1..]);
            |new_| + 1 == |old_| && new_[0] == old_[0] && forall k :: 0 < k < |new_| ==> new_[k] == old_[k + 1]
  {
  }

  lemma RestLinked(head: Node, xs: seq<Node>)
    requires xs != [] && head !in xs && Distinct(xs)
    requires Joined(head, Circle(head, xs)[2], true)
    requires forall k :: 2 <= k <= |xs| ==> Joined(Circle(head, xs)[k], Circle(head, xs)[k + 1], true)
    ensures Linked(head, xs[1..], 0)
  {
    var before, after := Circle(head, xs), Circle(head, xs[1..]);
    CircleRest(head, xs);
    forall k | 0 <= k < |xs| ensures Joined(after[k], after[k + 1], true) {
      if k > 0 {
        assert Joined(before[k + 1], before[k + 1 + 1], true);
      }
    }
  }

  /** What the drain loop does to the first entry before it frees it: the list goes on without it,
      or, if the entry points back to a lost one, the head still points at what is freed. */
  method DeleteFirst(head: Node, ghost xs: seq<Node>, ghost list: OfoLinks)
    requires xs != [] && HasLinks(head, xs, list)
    modifies head, xs, xs[0].prev
    ensures list == Whole ==> HasLinks(head, xs[1..], Whole)
    ensures head.next == xs[0] <==> list == Loose
  {
    ghost var ring := Circle(head, xs);
    Neighbours(head, xs, From(list), 0);
    Neighbours(head, xs, From(list), 1);
    CircleDiffers(head, xs);
    ListDelete(head.next);
    if list == Whole {
      forall k | 2 <= k <= |xs| ensures Joined(ring[k], ring[k + 1], true) {
        assert old(Joined(ring[k], ring[k + 1], true));
      }
      RestLinked(head, xs);
    }
  }

  /** Once a segment was lost, draining the first entry leaves the head pointing at freed memory. */
  method LostThenDrained(head: Node, segment: Segment, ghost xs: seq<Node>, ghost list: OfoLinks)
    requires HasLinks(head, xs, list) && GoesFirst(SegmentsIn(xs), segment)
    modifies head, xs
    ensures head.next == xs[0]
  {
    var node, _ := WriteOfoBuffer(head, segment, xs, list);
    DeleteFirst(head, xs, Loose);
  }

  // ---------------------------------------------------------------- what that means for a run

  /** Event `k` is the arrival of `x`. */
  predicate ArrivesAt(evs: seq<Event>, k: nat, x: Segment) {
    k < |evs| && evs[k].ArriveSegment? && evs[k].segment == x
  }

  /** Event `k` is an arrival of `x` that the list does not lose. */
  predicate KeptAt(iss: nat, evs: seq<Event>, k: nat, x: Segment) {
    && ArrivesAt(evs, k, x)
    && Exec(iss, evs[..k]).Some? && !IsLost(Exec(iss, evs[..k]).value.receiver, x)
  }

  ghost predicate IsKept(iss: nat, evs: seq<Event>, x: Segment) {
    exists k: nat :: KeptAt(iss, evs, k, x)
  }

  lemma KeptLater(iss: nat, evs: seq<Event>, ev: Event, x: Segment)
    ensures IsKept(iss, evs + [ev], x) <==> IsKept(iss, evs, x) || KeptAt(iss, evs + [ev], |evs|, x)
  {
    assert (evs + [ev])[..|evs|] == evs;
    forall k: nat | k < |evs| ensures KeptAt(iss, evs + [ev], k, x) <==> KeptAt(iss, evs, k, x) {
      assert (evs + [ev])[..k] == evs[..k];
    }
    if k: nat :| KeptAt(iss, evs + [ev], k, x) {
      assert k < |evs| ==> KeptAt(iss, evs, k, x);
    }
    if k: nat :| KeptAt(iss, evs, k, x) {
      assert KeptAt(iss, evs + [ev], k, x);
    }
  }

  lemma {:induction false} DeliveredIsKept(iss: nat, evs: seq<Event>, x: Segment)
    requires Exec(iss, evs).Some?
    ensures x in Exec(iss, evs).value.delivered <==> IsKept(iss, evs, x)
  {
    if evs != [] {
      var front, ev := evs[..|evs| - 1], evs[|evs| - 1];
      assert evs == front + [ev] && evs[..|front|] == front;
      DeliveredIsKept(iss, front, x);
      KeptLater(iss, front, ev, x);
    }
  }

  /** Every segment that arrived in the run is in the stream or waits. */
  ghost predicate NothingMissing(evs: seq<Event>, c: Conn)
    requires c.taken <= |c.sent|
  {
    forall k: nat, x {:trigger ArrivesAt(evs, k, x)} :: ArrivesAt(evs, k, x) ==>
      x in c.sent[..c.taken] || x in c.receiver.ofo
  }

  /** The reassembly misses nothing that arrived exactly when every segment that arrived was kept by
      the list at one of its arrivals. */
  lemma NothingMissingIff(iss: nat, evs: seq<Event>)
    requires iss < U32 && Exec(iss, evs).Some?
    ensures Exec(iss, evs).value.taken <= |Exec(iss, evs).value.sent|
    ensures NothingMissing(evs, Exec(iss, evs).value) <==>
            forall k: nat, x {:trigger ArrivesAt(evs, k, x)} :: ArrivesAt(evs, k, x) ==> IsKept(iss, evs, x)
  {
    ExecInv(iss, evs);
    forall x ensures x in Exec(iss, evs).value.delivered <==> IsKept(iss, evs, x) {
      DeliveredIsKept(iss, evs, x);
    }
    var c := Exec(iss, evs).value;
    forall x | x in c.sent[..c.taken] ensures x in c.delivered {
      var k :| 0 <= k < c.taken && c.sent[..c.taken][k] == x;
      assert c.sent[k] == x;
    }
  }

  const A := Segment(1, [0])
  const B := Segment(2, [0])
  const C := Segment(3, [0])

  /** After X arrived and was acknowledged the sender sends `n` more one-byte segments. */
  function Sending(n: nat, buf: seq<SendEntry>): Sender
    requires n <= 3
  {
    Sender(1, 1 + n, 3 * MSS - n, TCP_DEFAULT_WINDOW - 1, 3, 0, TCP_DEFAULT_WINDOW / MSS, OPEN, 0, 0, n, buf)
  }

  function Entry(segment: Segment): SendEntry {
    SendEntry(segment, segment.SeqEnd(), 1, TCP_RETRANS_INTERVAL_INITIAL)
  }

  lemma FirstAcked()
    ensures ProcessAck(SendPacket(InitSender(0), [0]), 1, TCP_DEFAULT_WINDOW - 1) == AckResult(Sending(0, []), Nothing)
  {
    var s := SendPacket(InitSender(0), [0]);
    assert PopOne(s).sndBuf == [];
    assert PopAcked(PopOne(s), 1) == PopOne(s);
  }

  lemma OneArrived() returns (evs: seq<Event>)
    ensures PoliteRun(0, evs, Conn(0, Sending(0, []), Receiver(1, [], [0]), 0, {X}, {ACK_X}, [X], {X}, 1, Whole))
  {
    var c0 := InitConn(0);
    var c1 := Next(c0, AppSend([0]));
    assert c1 == c0.(sender := SendPacket(InitSender(0), [0]), sent := [X], segments := {X});
    assert Receive(c1.receiver, X) == Receiver(1, [], [0]);
    var c2 := Next(c1, ArriveSegment(X, 0));
    assert c2 == c1.(receiver := Receiver(1, [], [0]), acks := {ACK_X}, delivered := {X}, taken := 1);
    FirstAcked();
    var c3 := Next(c2, ArriveAck(ACK_X));
    assert c3 == Conn(0, Sending(0, []), Receiver(1, [], [0]), 0, {X}, {ACK_X}, [X], {X}, 1, Whole);
    PoliteOneMore(0, [], c0, AppSend([0]));
    evs := [] + [AppSend([0])];
    PoliteOneMore(0, evs, c1, ArriveSegment(X, 0));
    evs := evs + [ArriveSegment(X, 0)];
    PoliteOneMore(0, evs, c2, ArriveAck(ACK_X));
    evs := evs + [ArriveAck(ACK_X)];
  }

  lemma SendOne(evs: seq<Event>, c: Conn, n: nat, buf: seq<SendEntry>) returns (run: seq<Event>, d: Conn)
    requires PoliteRun(0, evs, c) && n < 3 && c.sender == Sending(n, buf)
    ensures var x := Segment(1 + n, [0]);
            && PoliteRun(0, run, d)
            && d == c.(sender := Sending(n + 1, buf + [Entry(x)]), sent := c.sent + [x], segments := c.segments + {x})
  {
    PoliteOneMore(0, evs, c, AppSend([0]));
    run, d := evs + [AppSend([0])], Next(c, AppSend([0]));
  }

  /** The state after that in which three more are sent and the last of them has arrived. */
  lemma LastArrivesFirst() returns (evs: seq<Event>, c: Conn)
    ensures PoliteRun(0, evs, c)
    ensures c.receiver == Receiver(1, [C], [0]) && c.consumed == 0 && c.list == Whole
    ensures c.sent == [X, A, B, C] && c.taken == 1 && A in c.segments && B in c.segments
    ensures c.sender.sndNxt == 4
  {
    evs := OneArrived();
    c := Exec(0, evs).value;
    evs, c := SendOne(evs, c, 0, []);
    evs, c := SendOne(evs, c, 1, [Entry(A)]);
    evs, c := SendOne(evs, c, 2, [Entry(A)] + [Entry(B)]);
    assert Receive(c.receiver, C) == Receiver(1, [C], [0]);
    PoliteOneMore(0, evs, c, ArriveSegment(C, 0));
    evs, c := evs + [ArriveSegment(C, 0)], Next(c, ArriveSegment(C, 0));
  }

  lemma Arrives(evs: seq<Event>, c: Conn, x: Segment) returns (run: seq<Event>, d: Conn)
    requires PoliteRun(0, evs, c) && Enabled(c, ArriveSegment(x, 0))
    ensures PoliteRun(0, run, d) && run == evs + [ArriveSegment(x, 0)] && d == Next(c, ArriveSegment(x, 0))
  {
    PoliteOneMore(0, evs, c, ArriveSegment(x, 0));
    run, d := evs + [ArriveSegment(x, 0)], Next(c, ArriveSegment(x, 0));
  }

  /** An arrival can be lost, with every segment sent as the write loop sends: of three segments in
      flight the last arrives before the second. */
  lemma LossHappens() returns (evs: seq<Event>, c: Conn)
    ensures PoliteRun(0, evs, c) && evs != [] && ArrivesAt(evs, |evs| - 1, B)
    ensures c.taken <= |c.sent| && !NothingMissing(evs, c)
  {
    evs, c := LastArrivesFirst();
    assert IsLost(c.receiver, B);
    evs, c := Arrives(evs, c, B);
    assert c.sent[..1] == [X] && B !in c.receiver.ofo;
    assert ArrivesAt(evs, |evs| - 1, B);
  }

  lemma DrainsLast()
    ensures Drainable([C], 3) == 1 && DrainEnd([C], 3) == 4 && Drained([C], 3, [0, 0] + [0]) == ([], [0, 0, 0, 0])
  {
    var none := [C][1..];
    assert none == [] && [C][0] == C && C.SeqEnd() == 4;
    assert Drainable(none, 4) == 0 && DrainEnd(none, 4) == 4;
    DrainOne([C], 3, [0, 0] + [0]);
    assert none[..0] == [] && none[0..] == [] && [0, 0] + [0] + [0] + [] == [0, 0, 0, 0];
  }

  /** What the loss leaves. */
  lemma BLost() returns (evs: seq<Event>, c: Conn)
    ensures PoliteRun(0, evs, c)
    ensures c.receiver == Receiver(1, [C], [0]) && c.consumed == 0 && c.list == Loose
    ensures c.sent == [X, A, B, C] && c.taken == 1 && A in c.segments && B in c.segments
    ensures c.sender.sndNxt == 4
  {
    evs, c := LastArrivesFirst();
    assert Receive(c.receiver, B) == c.receiver;
    evs, c := Arrives(evs, c, B);
  }

  lemma AArrives(r: Receiver)
    requires r == Receiver(1, [C], [0])
    ensures Receive(r, A) == Receiver(2, [C], [0, 0]) && Drainable(r.ofo, A.SeqEnd()) == 0 && !IsLost(r, A)
  {
    assert A.SeqEnd() == 2;
    assert [C][..0] == [] && [C][0..] == [C] && [0] + [0] == [0, 0];
  }

  /** After the loss the first of the two missing segments arrives. */
  lemma OneMissing() returns (evs: seq<Event>, c: Conn)
    ensures PoliteRun(0, evs, c)
    ensures c.receiver == Receiver(2, [C], [0, 0]) && c.consumed == 0 && c.list == Loose
    ensures c.sent == [X, A, B, C] && c.taken == 2 && B in c.segments && c.sender.sndNxt == 4
  {
    evs, c := BLost();
    AArrives(c.receiver);
    evs, c := Arrives(evs, c, A);
  }

  /** And the head can come to point at a freed entry while more is to come: the second arrives too,
      the waiting one is drained, and a fourth is sent. */
  lemma FreedHappens() returns (evs: seq<Event>, c: Conn)
    ensures Exec(0, evs) == Some(c) && c.list == Freed && c.taken < |c.sent|
  {
    evs, c := OneMissing();
    DrainsLast();
    assert Receive(c.receiver, B) == Receiver(4, [], [0, 0, 0, 0]);
    evs, c := Arrives(evs, c, B);
    ExecOneMore(0, evs, c, AppSend([0]));
    evs, c := evs + [AppSend([0])], Next(c, AppSend([0]));
  }
}
