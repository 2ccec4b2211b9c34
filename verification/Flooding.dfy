/**
 Flooding of link-state updates: sequence numbers, the database of each router,
 and routers that forward whatever was new to them.
 */
module Flooding {
  import opened Common
  import opened RouteTable

  const MOSPF_MAX_LSU_TTL: nat := 255
  const MOSPF_DATABASE_TIMEOUT: nat := 40

  /** A database entry as kept by the daemon. */
  datatype Record = Record(rid: nat, seqNo: nat, alive: nat, lsas: seq<Lsa>)

  /** The 8-bit counter after one decrement. */
  function LessTtl(ttl: nat): nat {
    (ttl + 255) % 256
  }

  /** A link-state update on its way to router `dst`. */
  datatype Lsu = Lsu(dst: nat, rid: nat, seqNo: nat, ttl: nat, lsas: seq<Lsa>)

  /** The record that an update makes. */
  function Fresh(u: Lsu): Record {
    Record(u.rid, u.seqNo, 0, u.lsas)
  }

  predicate HasRecord(db: seq<Record>, rid: nat) {
    exists i :: 0 <= i < |db| && db[i].rid == rid
  }

  /** Every matching older record is overwritten; without a match a record is appended. */
  function Merge(db: seq<Record>, u: Lsu): seq<Record> {
    if HasRecord(db, u.rid)
    then seq(|db|, i requires 0 <= i < |db| => if db[i].rid == u.rid && db[i].seqNo < u.seqNo then Fresh(u) else db[i])
    else db + [Fresh(u)]
  }

  /** The update was new to this database. */
  predicate Updates(db: seq<Record>, u: Lsu) {
    !HasRecord(db, u.rid) || exists i :: 0 <= i < |db| && db[i].rid == u.rid && db[i].seqNo < u.seqNo
  }

  function Aged(r: Record): Record {
    r.(alive := r.alive + 1)
  }

  /** One pass of checking_database_thread. */
  function Age(db: seq<Record>): seq<Record> {
    if db == [] then []
    else
      var r := Aged(db[|db| - 1]);
      Age(db[..|db| - 1]) + if r.alive >= MOSPF_DATABASE_TIMEOUT then [] else [r]
  }

  /** The daemon's state and handlers. */
  class Mospf {
    const routerId: nat
    var sequenceNum: nat
    var db: seq<Record>

    constructor (id: nat)
      ensures routerId == id && sequenceNum == 0 && db == []
    {
      routerId := id;
      sequenceNum := 0;
      db := [];
    }

    /** handle_mospf_lsu: merge the update; if it was new and its TTL allows, forward it to every
        neighbour but the router it comes from. */
    method HandleLsu(u: Lsu, nbrs: set<nat>) returns (forwarded: set<Lsu>)
      modifies this`db
      ensures db == Merge(old(db), u)
      ensures forwarded == Forwarded(old(db), u, nbrs)
    {
      var find, updated := false, false;
      ghost var db0 := db;
      for i := 0 to |db|
        invariant |db| == |db0|
        invariant find <==> exists k :: 0 <= k < i && db0[k].rid == u.rid
        invariant updated <==> exists k :: 0 <= k < i && db0[k].rid == u.rid && db0[k].seqNo < u.seqNo
        invariant forall k :: i <= k < |db| ==> db[k] == db0[k]
        invariant forall k :: 0 <= k < i ==>
                    db[k] == if db0[k].rid == u.rid && db0[k].seqNo < u.seqNo then Fresh(u) else db0[k]
      {
        if db[i].rid == u.rid {
          find := true;
          if db[i].seqNo < u.seqNo {
            updated := true;
            db := db[i := Record(db[i].rid, u.seqNo, 0, u.lsas)];
          }
        }
      }
      if !find {
        updated := true;
        assert db == db0;
        db := db + [Record(u.rid, u.seqNo, 0, u.lsas)];
      } else {
        assert db == Merge(db0, u);
      }
      forwarded := {};
      if updated {
        var ttl := LessTtl(u.ttl);
        if ttl > 0 {
          forwarded := set n | n in nbrs && n != u.rid :: u.(dst := n, ttl := ttl);
        }
      }
    }

    /** sending_mospf_lsu with the advertisements `lsas`. */
    method SendLsu(lsas: seq<Lsa>, nbrs: set<nat>) returns (sent: set<Lsu>)
      modifies this`sequenceNum
      ensures sequenceNum == (old(sequenceNum) + 1) % 0x1_0000
      ensures sent == Originated(routerId, sequenceNum, lsas, nbrs)
    {
      sequenceNum := (sequenceNum + 1) % 0x1_0000;
      sent := set n | n in nbrs :: Lsu(n, routerId, sequenceNum, MOSPF_MAX_LSU_TTL, lsas);
    }

    method CheckDatabase()
      modifies this`db
      ensures db == Age(old(db))
    {
      var kept := [];
      for i := 0 to |db|
        invariant kept == Age(db[..i])
        invariant db == old(db)
      {
        assert db[..i + 1][..i] == db[..i];
        var r := Aged(db[i]);
        if r.alive < MOSPF_DATABASE_TIMEOUT {
          kept := kept + [r];
        }
      }
      assert db[..|db|] == db;
      db := kept;
    }
  }

  function Forwarded(db: seq<Record>, u: Lsu, nbrs: set<nat>): set<Lsu> {
    if Updates(db, u) && LessTtl(u.ttl) > 0
    then set n | n in nbrs && n != u.rid :: u.(dst := n, ttl := LessTtl(u.ttl))
    else {}
  }

  function Originated(rid: nat, seqNo: nat, lsas: seq<Lsa>, nbrs: set<nat>): set<Lsu> {
    set n | n in nbrs :: Lsu(n, rid, seqNo, MOSPF_MAX_LSU_TTL, lsas)
  }

  // ---------------------------------------------------------------- the protocol

  /** `history[r]` lists every advertisement router r has made; the k-th went out as number k + 1. */
  datatype Net = Net(history: map<nat, seq<seq<Lsa>>>, dbs: map<nat, seq<Record>>, flying: set<Lsu>)

  /** Neighbour lists come and go, so each event carries the list in force when it happens. */
  datatype Event =
    | Originate(r: nat, lsas: seq<Lsa>, nbrs: set<nat>)
    | Deliver(u: Lsu, nbrs: set<nat>)
    | AgeDb(r: nat)

  function Init(routers: set<nat>): Net {
    Net(map r | r in routers :: [], map r | r in routers :: [], {})
  }

  /** Sequence numbers are 16-bit and must not wrap; no router is its own neighbour. */
  predicate Enabled(net: Net, ev: Event) {
    match ev
    case Originate(r, _, nbrs) => r in net.history && |net.history[r]| + 1 < 0x1_0000 && r !in nbrs
    case Deliver(u, nbrs) => u in net.flying && u.dst in net.dbs && u.dst !in nbrs
    case AgeDb(r) => r in net.dbs
  }

  function Next(net: Net, ev: Event): Net
    requires Enabled(net, ev)
  {
    match ev
    case Originate(r, lsas, nbrs) =>
      net.(history := net.history[r := net.history[r] + [lsas]],
           flying := net.flying + Originated(r, |net.history[r]| + 1, lsas, nbrs))
    case Deliver(u, nbrs) =>
      net.(dbs := net.dbs[u.dst := Merge(net.dbs[u.dst], u)],
           flying := net.flying + Forwarded(net.dbs[u.dst], u, nbrs))
    case AgeDb(r) => net.(dbs := net.dbs[r := Age(net.dbs[r])])
  }

  function Exec(routers: set<nat>, evs: seq<Event>): Option<Net> {
    if evs == [] then Some(Init(routers))
    else
      match Exec(routers, evs[..|evs| - 1])
      case None => None
      case Some(net) => if Enabled(net, evs[|evs| - 1]) then Some(Next(net, evs[|evs| - 1])) else None
  }

  /** `lsas` is what router `rid` advertised with number `seqNo`. */
  ghost predicate Authentic(history: map<nat, seq<seq<Lsa>>>, rid: nat, seqNo: nat, lsas: seq<Lsa>) {
    rid in history && 0 < seqNo <= |history[rid]| && lsas == history[rid][seqNo - 1]
  }

  ghost predicate FlyingInv(net: Net) {
    forall u :: u in net.flying ==>
      Authentic(net.history, u.rid, u.seqNo, u.lsas) && u.dst != u.rid && 0 < u.ttl <= MOSPF_MAX_LSU_TTL
  }

  /** Each entry is authentic and not the router's own, and no router has two entries. */
  ghost predicate DbOk(history: map<nat, seq<seq<Lsa>>>, self: nat, db: seq<Record>) {
    && (forall i :: 0 <= i < |db| ==> Authentic(history, db[i].rid, db[i].seqNo, db[i].lsas) && db[i].rid != self)
    && forall i, j :: 0 <= i < j < |db| ==> db[i].rid != db[j].rid
  }

  ghost predicate Inv(net: Net) {
    FlyingInv(net) && forall r :: r in net.dbs ==> DbOk(net.history, r, net.dbs[r])
  }

  lemma MergeKeepsDb(history: map<nat, seq<seq<Lsa>>>, self: nat, db: seq<Record>, u: Lsu)
    requires DbOk(history, self, db) && Authentic(history, u.rid, u.seqNo, u.lsas) && u.rid != self
    ensures DbOk(history, self, Merge(db, u))
  {
  }

  /** `r` is a record of `db`, except perhaps for its age. */
  ghost predicate AgedFrom(db: seq<Record>, r: Record) {
    exists i :: 0 <= i < |db| && db[i].(alive := 0) == r.(alive := 0)
  }

  lemma {:induction false} AgeMembers(db: seq<Record>, j: nat)
    requires j < |Age(db)|
    ensures AgedFrom(db, Age(db)[j])
  {
    var front, last := db[..|db| - 1], db[|db| - 1];
    if j < |Age(front)| {
      AgeMembers(front, j);
      var i :| 0 <= i < |front| && front[i].(alive := 0) == Age(front)[j].(alive := 0);
      assert db[i] == front[i] && Age(db)[j] == Age(front)[j];
    } else {
      assert Age(db)[j] == Aged(last) && last.(alive := 0) == Aged(last).(alive := 0);
    }
  }

  lemma DbFront(history: map<nat, seq<seq<Lsa>>>, self: nat, db: seq<Record>)
    requires DbOk(history, self, db) && db != []
    ensures DbOk(history, self, db[..|db| - 1])
    ensures forall r :: AgedFrom(db[..|db| - 1], r) ==> r.rid != db[|db| - 1].rid
  {
  }

  lemma {:induction false} AgeKeepsDb(history: map<nat, seq<seq<Lsa>>>, self: nat, db: seq<Record>)
    requires DbOk(history, self, db)
    ensures DbOk(history, self, Age(db))
  {
    if db != [] {
      var front, last := db[..|db| - 1], db[|db| - 1];
      DbFront(history, self, db);
      AgeKeepsDb(history, self, front);
      forall j | 0 <= j < |Age(front)| ensures Age(front)[j].rid != last.rid {
        AgeMembers(front, j);
      }
      assert DbOk(history, self, Age(front) + [Aged(last)]);
    }
  }

  lemma NextInv(net: Net, ev: Event)
    requires Inv(net) && Enabled(net, ev)
    ensures Inv(Next(net, ev))
  {
    match ev
    case Originate(r, lsas, nbrs) =>
    case Deliver(u, nbrs) => MergeKeepsDb(net.history, u.dst, net.dbs[u.dst], u);
    case AgeDb(r) => AgeKeepsDb(net.history, r, net.dbs[r]);
  }

  lemma {:induction false} ExecInv(routers: set<nat>, evs: seq<Event>)
    requires Exec(routers, evs).Some?
    ensures Inv(Exec(routers, evs).value)
  {
    if evs != [] {
      ExecInv(routers, evs[..|evs| - 1]);
      NextInv(Exec(routers, evs[..|evs| - 1]).value, evs[|evs| - 1]);
    }
  }

  /** The part of the database that routes are computed from. */
  function Entries(db: seq<Record>): (es: seq<DbEntry>)
    ensures |es| == |db|
  {
    seq(|db|, i requires 0 <= i < |db| => DbEntry(db[i].rid, db[i].lsas))
  }

  /** In every run every database entry is exactly what its router advertised under that number,
      and the router list built from a database never names a router twice. */
  lemma DatabasesAreAuthentic(routers: set<nat>, evs: seq<Event>, r: nat)
    requires Exec(routers, evs).Some? && r in Exec(routers, evs).value.dbs
    ensures var net := Exec(routers, evs).value;
            && DbOk(net.history, r, net.dbs[r])
            && Distinct(RouterIds(r, Entries(net.dbs[r])))
  {
    ExecInv(routers, evs);
  }

  /** The newest number router `x` holds for `rid`, 0 for none. */
  function HeldSeq(db: seq<Record>, rid: nat): nat {
    if db == [] then 0 else if db[0].rid == rid then db[0].seqNo else HeldSeq(db[1..], rid)
  }

  lemma {:induction false} HeldSeqAt(history: map<nat, seq<seq<Lsa>>>, self: nat, db: seq<Record>, rid: nat)
    requires DbOk(history, self, db)
    ensures forall i :: 0 <= i < |db| && db[i].rid == rid ==> HeldSeq(db, rid) == db[i].seqNo > 0
    ensures !HasRecord(db, rid) ==> HeldSeq(db, rid) == 0
    ensures rid in history ==> HeldSeq(db, rid) <= |history[rid]|
  {
    if db != [] {
      assert forall i :: 0 <= i < |db[1..]| ==> db[1..][i] == db[i + 1];
      HeldSeqAt(history, self, db[1..], rid);
      assert db[0].rid != rid && HasRecord(db[1..], rid) ==> HasRecord(db, rid);
    }
  }

  /** Merging an update raises the number held for its router to the update's exactly when it is
      newer, and an update is forwarded only then. */
  lemma MergeRaises(history: map<nat, seq<seq<Lsa>>>, self: nat, db: seq<Record>, u: Lsu, rid: nat)
    requires DbOk(history, self, db) && Authentic(history, u.rid, u.seqNo, u.lsas) && u.rid != self
    ensures Updates(db, u) <==> HeldSeq(db, u.rid) < u.seqNo
    ensures HeldSeq(Merge(db, u), rid) ==
            if rid == u.rid && HeldSeq(db, rid) < u.seqNo then u.seqNo else HeldSeq(db, rid)
  {
    MergeKeepsDb(history, self, db, u);
    HeldSeqAt(history, self, db, u.rid);
    HeldSeqAt(history, self, db, rid);
    HeldSeqAt(history, self, Merge(db, u), rid);
    var after := Merge(db, u);
    if HasRecord(db, rid) {
      var i :| 0 <= i < |db| && db[i].rid == rid;
      assert after[i].rid == rid;
    } else if rid == u.rid {
      assert after[|db|].rid == rid;
    } else {
      assert !HasRecord(after, rid);
    }
  }

  /** How many deliveries of the run were new to router `x` about router `rid`. */
  ghost function NewCount(routers: set<nat>, evs: seq<Event>, x: nat, rid: nat): nat
    requires Exec(routers, evs).Some? && x in routers
  {
    if evs == [] then 0
    else
      var before, ev := evs[..|evs| - 1], evs[|evs| - 1];
      ExecRouters(routers, before);
      NewCount(routers, before, x, rid)
      + if IsNew(Exec(routers, before).value, ev, x, rid) then 1 else 0
  }

  /** Ageing keeps the number held for a router or drops the router's entry. */
  lemma AgeHolds(history: map<nat, seq<seq<Lsa>>>, self: nat, db: seq<Record>, rid: nat)
    requires DbOk(history, self, db)
    ensures HeldSeq(Age(db), rid) == if HasRecord(Age(db), rid) then HeldSeq(db, rid) else 0
  {
    AgeKeepsDb(history, self, db);
    HeldSeqAt(history, self, db, rid);
    HeldSeqAt(history, self, Age(db), rid);
    if j :| 0 <= j < |Age(db)| && Age(db)[j].rid == rid {
      AgeMembers(db, j);
      var i :| 0 <= i < |db| && db[i].(alive := 0) == Age(db)[j].(alive := 0);
      assert db[i].rid == rid && db[i].seqNo == Age(db)[j].seqNo;
    }
  }

  /** The event drops router x's entry for router `rid`. */
  predicate Expires(net: Net, ev: Event, x: nat, rid: nat)
    requires x in net.dbs
  {
    ev == AgeDb(x) && HasRecord(net.dbs[x], rid) && !HasRecord(Age(net.dbs[x]), rid)
  }

  /** The number a router holds never falls while the entry lives. */
  lemma HeldNeverFalls(net: Net, ev: Event, x: nat, rid: nat)
    requires Inv(net) && Enabled(net, ev) && x in net.dbs
    ensures HeldSeq(Next(net, ev).dbs[x], rid) >= if Expires(net, ev, x, rid) then 0 else HeldSeq(net.dbs[x], rid)
  {
    match ev
    case Originate(r, lsas, nbrs) =>
    case Deliver(u, nbrs) =>
      if u.dst == x {
        MergeRaises(net.history, x, net.dbs[x], u, rid);
      }
    case AgeDb(r) =>
      if r == x {
        AgeHolds(net.history, x, net.dbs[x], rid);
        HeldSeqAt(net.history, x, net.dbs[x], rid);
      }
  }

  /** How many times router x dropped its entry for router `rid`. */
  ghost function Expiries(routers: set<nat>, evs: seq<Event>, x: nat, rid: nat): nat
    requires Exec(routers, evs).Some? && x in routers
  {
    if evs == [] then 0
    else
      var before, ev := evs[..|evs| - 1], evs[|evs| - 1];
      ExecRouters(routers, before);
      Expiries(routers, before, x, rid) + if Expires(Exec(routers, before).value, ev, x, rid) then 1 else 0
  }

  lemma {:induction false} ExecRouters(routers: set<nat>, evs: seq<Event>)
    requires Exec(routers, evs).Some?
    ensures Exec(routers, evs).value.dbs.Keys == routers == Exec(routers, evs).value.history.Keys
  {
    if evs != [] {
      ExecRouters(routers, evs[..|evs| - 1]);
    }
  }

  /** The number held, and all that was ever made once more for each entry dropped. */
  ghost function Allowance(net: Net, x: nat, rid: nat, expiries: nat): int
    requires x in net.dbs && rid in net.history
  {
    expiries * |net.history[rid]| + HeldSeq(net.dbs[x], rid)
  }

  lemma HeldBelowHistory(net: Net, x: nat, rid: nat)
    requires Inv(net) && x in net.dbs && rid in net.history
    ensures HeldSeq(net.dbs[x], rid) <= |net.history[rid]|
  {
    HeldSeqAt(net.history, x, net.dbs[x], rid);
  }

  /** A new delivery raises the number held. */
  predicate IsNew(net: Net, ev: Event, x: nat, rid: nat)
    requires x in net.dbs
  {
    ev.Deliver? && ev.u.dst == x && ev.u.rid == rid && Updates(net.dbs[x], ev.u)
  }

  lemma AllowanceBelow(net: Net, x: nat, rid: nat, e: nat)
    requires Inv(net) && x in net.dbs && rid in net.history
    ensures Allowance(net, x, rid, e) <= (1 + e) * |net.history[rid]|
  {
    HeldBelowHistory(net, x, rid);
  }

  lemma AllowanceStep(net: Net, ev: Event, x: nat, rid: nat, e: nat)
    requires Inv(net) && Enabled(net, ev) && x in net.dbs && rid in net.history
    ensures Allowance(Next(net, ev), x, rid, e + if Expires(net, ev, x, rid) then 1 else 0) >=
            Allowance(net, x, rid, e) + if IsNew(net, ev, x, rid) then 1 else 0
  {
    HeldNeverFalls(net, ev, x, rid);
    HeldBelowHistory(net, x, rid);
    var before, after := |net.history[rid]|, |Next(net, ev).history[rid]|;
    assert e * before <= e * after && (e + 1) * after == e * after + after;
    if IsNew(net, ev, x, rid) {
      MergeRaises(net.history, x, net.dbs[x], ev.u, rid);
    }
  }

  lemma {:induction false} NewCountAllowed(routers: set<nat>, evs: seq<Event>, x: nat, rid: nat)
    requires Exec(routers, evs).Some? && x in routers && rid in routers
    ensures var net := Exec(routers, evs).value;
            && x in net.dbs && rid in net.history
            && NewCount(routers, evs, x, rid) <= Allowance(net, x, rid, Expiries(routers, evs, x, rid))
  {
    ExecRouters(routers, evs);
    if evs != [] {
      var before, ev := evs[..|evs| - 1], evs[|evs| - 1];
      NewCountAllowed(routers, before, x, rid);
      ExecInv(routers, before);
      AllowanceStep(Exec(routers, before).value, ev, x, rid, Expiries(routers, before, x, rid));
    }
  }

  /** Floods die out: a router treats as new, and so forwards, at most as many updates of a router as
      that router ever made, once and once more for each time it dropped the entry, however often the
      network duplicates or reorders them. */
  lemma FloodsAreFinite(routers: set<nat>, evs: seq<Event>, x: nat, rid: nat)
    requires Exec(routers, evs).Some? && x in routers && rid in routers
    ensures rid in Exec(routers, evs).value.history
    ensures NewCount(routers, evs, x, rid) <=
            (1 + Expiries(routers, evs, x, rid)) * |Exec(routers, evs).value.history[rid]|
  {
    var net := Exec(routers, evs).value;
    ExecInv(routers, evs);
    NewCountAllowed(routers, evs, x, rid);
    AllowanceBelow(net, x, rid, Expiries(routers, evs, x, rid));
  }

  // ---------------------------------------------------------------- where the copies come from

  /** What an event sends. */
  function Sends(net: Net, ev: Event): set<Lsu>
    requires Enabled(net, ev)
  {
    match ev
    case Originate(r, lsas, nbrs) => Originated(r, |net.history[r]| + 1, lsas, nbrs)
    case Deliver(u, nbrs) => Forwarded(net.dbs[u.dst], u, nbrs)
    case AgeDb(_) => {}
  }

  /** How many times router x sent copies of updates of router `rid` on. */
  ghost function RelayCount(routers: set<nat>, evs: seq<Event>, x: nat, rid: nat): nat
    requires Exec(routers, evs).Some?
  {
    if evs == [] then 0
    else
      var before, ev := evs[..|evs| - 1], evs[|evs| - 1];
      RelayCount(routers, before, x, rid)
      + if ev.Deliver? && ev.u.dst == x && ev.u.rid == rid && Sends(Exec(routers, before).value, ev) != {} then 1 else 0
  }

  /** A router sends on nothing but what was new to it. */
  lemma {:induction false} OnlyNewIsRelayed(routers: set<nat>, evs: seq<Event>, x: nat, rid: nat)
    requires Exec(routers, evs).Some? && x in routers
    ensures RelayCount(routers, evs, x, rid) <= NewCount(routers, evs, x, rid)
  {
    if evs != [] {
      ExecRouters(routers, evs[..|evs| - 1]);
      OnlyNewIsRelayed(routers, evs[..|evs| - 1], x, rid);
    }
  }

  /** So in every run it sends an update of a router on at most as often as that router made one, once
      and once more for each time the entry was dropped. */
  lemma RelaysAreFinite(routers: set<nat>, evs: seq<Event>, x: nat, rid: nat)
    requires Exec(routers, evs).Some? && x in routers && rid in routers
    ensures rid in Exec(routers, evs).value.history
    ensures RelayCount(routers, evs, x, rid) <=
            (1 + Expiries(routers, evs, x, rid)) * |Exec(routers, evs).value.history[rid]|
  {
    OnlyNewIsRelayed(routers, evs, x, rid);
    FloodsAreFinite(routers, evs, x, rid);
  }

  /** Event `k` of the run sent `v`. */
  ghost predicate SentAt(routers: set<nat>, evs: seq<Event>, k: nat, v: Lsu) {
    && k < |evs| && Exec(routers, evs[..k]).Some? && Enabled(Exec(routers, evs[..k]).value, evs[k])
    && v in Sends(Exec(routers, evs[..k]).value, evs[k])
  }

  /** A router made the update in the run and sent this copy of it. */
  ghost predicate Born(routers: set<nat>, evs: seq<Event>, v: Lsu) {
    exists k: nat :: SentAt(routers, evs, k, v) && evs[k].Originate?
  }

  /** Router `u.dst` sent `v` in the run because `u` was new to it. */
  ghost predicate Relayed(routers: set<nat>, evs: seq<Event>, u: Lsu, v: Lsu) {
    exists k: nat :: SentAt(routers, evs, k, v) && evs[k].Deliver? && evs[k].u == u
  }

  /** Copies of an update, each relayed in the run because of the one before. */
  ghost predicate Chain(routers: set<nat>, evs: seq<Event>, us: seq<Lsu>) {
    && us != [] && Born(routers, evs, us[0])
    && forall i :: 0 <= i < |us| - 1 ==> Relayed(routers, evs, us[i], us[i + 1])
  }

  lemma SentLater(routers: set<nat>, evs: seq<Event>, e: Event, k: nat, v: Lsu)
    requires SentAt(routers, evs, k, v)
    ensures SentAt(routers, evs + [e], k, v) && (evs + [e])[k] == evs[k]
  {
    assert (evs + [e])[..k] == evs[..k];
  }

  lemma ChainLater(routers: set<nat>, evs: seq<Event>, e: Event, us: seq<Lsu>)
    requires Chain(routers, evs, us)
    ensures Chain(routers, evs + [e], us)
  {
    var k: nat :| SentAt(routers, evs, k, us[0]) && evs[k].Originate?;
    SentLater(routers, evs, e, k, us[0]);
    forall i | 0 <= i < |us| - 1 ensures Relayed(routers, evs + [e], us[i], us[i + 1]) {
      assert Relayed(routers, evs, us[i], us[i + 1]);
      var l: nat :| SentAt(routers, evs, l, us[i + 1]) && evs[l].Deliver? && evs[l].u == us[i];
      SentLater(routers, evs, e, l, us[i + 1]);
    }
  }

  lemma ChainLonger(routers: set<nat>, evs: seq<Event>, us: seq<Lsu>, v: Lsu)
    requires Chain(routers, evs, us) && Relayed(routers, evs, us[|us| - 1], v)
    ensures Chain(routers, evs, us + [v])
  {
    var vs := us + [v];
    forall i | 0 <= i < |vs| - 1 ensures Relayed(routers, evs, vs[i], vs[i + 1]) {
      if i < |us| - 1 {
        assert Relayed(routers, evs, us[i], us[i + 1]);
      }
    }
  }

  lemma {:induction false} FramesAreChained(routers: set<nat>, evs: seq<Event>, v: Lsu) returns (us: seq<Lsu>)
    requires Exec(routers, evs).Some? && v in Exec(routers, evs).value.flying
    ensures Chain(routers, evs, us) && us[|us| - 1] == v
  {
    var k := |evs| - 1;
    var before, ev := evs[..k], evs[k];
    var net := Exec(routers, before).value;
    assert evs == before + [ev];
    if v in net.flying {
      us := FramesAreChained(routers, before, v);
      ChainLater(routers, before, ev, us);
    } else {
      assert SentAt(routers, evs, k, v);
      if ev.Originate? {
        us := [v];
      } else {
        us := FramesAreChained(routers, before, ev.u);
        ChainLater(routers, before, ev, us);
        ChainLonger(routers, evs, us, v);
        us := us + [v];
      }
    }
  }

  lemma {:induction false} RelaysAreFew(routers: set<nat>, evs: seq<Event>, us: seq<Lsu>, k: nat)
    requires Chain(routers, evs, us) && k < |us|
    ensures us[k].ttl + k == MOSPF_MAX_LSU_TTL && k < MOSPF_MAX_LSU_TTL
    ensures us[k].(dst := us[0].dst, ttl := us[0].ttl) == us[0]
    ensures k > 0 ==> us[k].dst != us[0].rid
  {
    if k > 0 {
      RelaysAreFew(routers, evs, us, k - 1);
      assert Relayed(routers, evs, us[k - 1], us[(k - 1) + 1]);
    }
  }

  /** Even when databases expire and learn the same update again, every copy in flight goes back, by
      at most 254 relays of the run, to the router that made the update, and carries what that
      router advertised. */
  lemma FramesComeFromOrigin(routers: set<nat>, evs: seq<Event>, v: Lsu) returns (us: seq<Lsu>)
    requires Exec(routers, evs).Some? && v in Exec(routers, evs).value.flying
    ensures Chain(routers, evs, us) && us[|us| - 1] == v
    ensures |us| == MOSPF_MAX_LSU_TTL - v.ttl + 1 <= MOSPF_MAX_LSU_TTL
    ensures v.(dst := us[0].dst, ttl := us[0].ttl) == us[0]
  {
    us := FramesAreChained(routers, evs, v);
    RelaysAreFew(routers, evs, us, |us| - 1);
  }
}
