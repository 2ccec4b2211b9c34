/**
 How long database entries live and in which order they stand: an entry goes after 40 passes of the
 ageing thread without a newer update, counted from the last one, and entries stand in the order in
 which they were learnt.
 */
module FloodAges {
  import opened Common
  import opened RouteTable
  import opened Flooding

  // ---------------------------------------------------------------- one pass

  lemma {:induction false} AgeLeaves(db: seq<Record>, r: Record)
    ensures r in Age(db) <==> r.alive > 0 && r.alive < 40 && r.(alive := r.alive - 1) in db
  {
    if db != [] {
      var front, last := db[..|db| - 1], db[|db| - 1];
      AgeLeaves(front, r);
      assert db == front + [last];
      assert r == Aged(last) <==> r.alive > 0 && r.(alive := r.alive - 1) == last;
    }
  }

  /** The entry for router `rid` is the one with these values. */
  ghost predicate HasEntry(db: seq<Record>, rid: nat, alive: nat, seqNo: nat, lsas: seq<Lsa>) {
    && Record(rid, seqNo, alive, lsas) in db
    && forall r :: r in db && r.rid == rid ==> r == Record(rid, seqNo, alive, lsas)
  }

  /** What router x holds of router `rid` when its last new update was numbered `seqNo` and `passes`
      passes have gone by since. */
  ghost predicate LivesFor(net: Net, x: nat, rid: nat, seqNo: nat, lsas: seq<Lsa>, passes: nat) {
    && x in net.dbs
    && if passes < 40 then HasEntry(net.dbs[x], rid, passes, seqNo, lsas) else !HasRecord(net.dbs[x], rid)
  }

  lemma RecordsIn(db: seq<Record>, rid: nat)
    ensures HasRecord(db, rid) <==> exists r :: r in db && r.rid == rid
  {
    if i :| 0 <= i < |db| && db[i].rid == rid {
      assert db[i] in db;
    }
  }

  lemma AgePasses(db: seq<Record>, rid: nat, seqNo: nat, lsas: seq<Lsa>, passes: nat)
    requires if passes < 40 then HasEntry(db, rid, passes, seqNo, lsas) else !HasRecord(db, rid)
    ensures if passes + 1 < 40 then HasEntry(Age(db), rid, passes + 1, seqNo, lsas) else !HasRecord(Age(db), rid)
  {
    RecordsIn(db, rid);
    RecordsIn(Age(db), rid);
    forall r | r in Age(db) && r.rid == rid ensures passes + 1 < 40 && r == Record(rid, seqNo, passes + 1, lsas) {
      AgeLeaves(db, r);
      assert r.(alive := r.alive - 1).rid == rid;
    }
    AgeLeaves(db, Record(rid, seqNo, passes + 1, lsas));
  }

  lemma MergeMembers(db: seq<Record>, u: Lsu, rid: nat)
    requires rid != u.rid || !Updates(db, u)
    ensures forall r: Record :: r.rid == rid ==> (r in Merge(db, u) <==> r in db)
  {
    var after := Merge(db, u);
    forall r: Record | r.rid == rid && r in db ensures r in after {
      var i :| 0 <= i < |db| && db[i] == r;
      assert after[i] == r;
    }
    forall r: Record | r.rid == rid && r in after ensures r in db {
      var i :| 0 <= i < |after| && after[i] == r;
      assert i < |db| ==> db[i] == r;
    }
  }

  /** A new update puts an entry of age 0 with its number and content in place. */
  lemma MergeRefreshes(history: map<nat, seq<seq<Lsa>>>, self: nat, db: seq<Record>, u: Lsu)
    requires DbOk(history, self, db) && Updates(db, u)
    ensures HasEntry(Merge(db, u), u.rid, 0, u.seqNo, u.lsas)
  {
    var after := Merge(db, u);
    forall r | r in after && r.rid == u.rid ensures r == Fresh(u) {
      var i :| 0 <= i < |after| && after[i] == r;
    }
    if HasRecord(db, u.rid) {
      var i :| 0 <= i < |db| && db[i].rid == u.rid && db[i].seqNo < u.seqNo;
      assert after[i] == Fresh(u);
    } else {
      assert after[|db|] == Fresh(u);
    }
  }

  // ---------------------------------------------------------------- a run

  /** How many passes of router x's ageing thread there are among the first `n` events. */
  function Passes(evs: seq<Event>, x: nat, n: nat): nat
    requires n <= |evs|
  {
    if n == 0 then 0 else Passes(evs, x, n - 1) + if evs[n - 1] == AgeDb(x) then 1 else 0
  }

  /** After the run `evs` nothing new about router `rid` reaches router x in `more`. */
  ghost predicate NothingNew(routers: set<nat>, evs: seq<Event>, more: seq<Event>, x: nat, rid: nat) {
    forall k ::
      0 <= k < |more| && Exec(routers, evs + more[..k]).Some? && x in Exec(routers, evs + more[..k]).value.dbs ==>
        !IsNew(Exec(routers, evs + more[..k]).value, more[k], x, rid)
  }

  lemma LifeStep(net: Net, ev: Event, x: nat, rid: nat, seqNo: nat, lsas: seq<Lsa>, passes: nat)
    requires Enabled(net, ev) && LivesFor(net, x, rid, seqNo, lsas, passes) && !IsNew(net, ev, x, rid)
    ensures LivesFor(Next(net, ev), x, rid, seqNo, lsas, passes + if ev == AgeDb(x) then 1 else 0)
  {
    var db := net.dbs[x];
    match ev
    case Originate(_, _, _) =>
    case Deliver(u, _) =>
      if u.dst == x {
        MergeMembers(db, u, rid);
        RecordsIn(db, rid);
        RecordsIn(Merge(db, u), rid);
      }
    case AgeDb(r) =>
      if r == x {
        AgePasses(db, rid, seqNo, lsas, passes);
      }
  }

  lemma {:induction false} LifeGoesOn(routers: set<nat>, evs: seq<Event>, more: seq<Event>, n: nat, x: nat, rid: nat,
                                      seqNo: nat, lsas: seq<Lsa>)
    requires n <= |more| && Exec(routers, evs + more[..n]).Some? && NothingNew(routers, evs, more, x, rid)
    requires Exec(routers, evs).Some? && LivesFor(Exec(routers, evs).value, x, rid, seqNo, lsas, 0)
    ensures LivesFor(Exec(routers, evs + more[..n]).value, x, rid, seqNo, lsas, Passes(more, x, n))
  {
    if n == 0 {
      assert evs + more[..0] == evs;
    } else {
      var run, front := evs + more[..n], evs + more[..n - 1];
      assert run[..|run| - 1] == front && run[|run| - 1] == more[n - 1];
      LifeGoesOn(routers, evs, more, n - 1, x, rid, seqNo, lsas);
      LifeStep(Exec(routers, front).value, more[n - 1], x, rid, seqNo, lsas, Passes(more, x, n - 1));
    }
  }

  /** An update that is new to router x is held, with its number and content, until 40 passes of x's
      ageing thread have gone by without a newer one, and not longer; the age of the entry counts the
      passes since the update. */
  lemma EntryLivesIff(routers: set<nat>, evs: seq<Event>, u: Lsu, nbrs: set<nat>, more: seq<Event>)
    requires Exec(routers, evs).Some? && u.dst in Exec(routers, evs).value.dbs
    requires Enabled(Exec(routers, evs).value, Deliver(u, nbrs)) && Updates(Exec(routers, evs).value.dbs[u.dst], u)
    requires Exec(routers, evs + [Deliver(u, nbrs)] + more).Some?
    requires NothingNew(routers, evs + [Deliver(u, nbrs)], more, u.dst, u.rid)
    ensures var net := Exec(routers, evs + [Deliver(u, nbrs)] + more).value;
            var passes := Passes(more, u.dst, |more|);
            && u.dst in net.dbs
            && (HasRecord(net.dbs[u.dst], u.rid) <==> passes < 40)
            && (passes < 40 ==> HasEntry(net.dbs[u.dst], u.rid, passes, u.seqNo, u.lsas))
  {
    var net, sent := Exec(routers, evs).value, evs + [Deliver(u, nbrs)];
    assert sent[..|evs|] == evs && more[..|more|] == more;
    ExecInv(routers, evs);
    MergeRefreshes(net.history, u.dst, net.dbs[u.dst], u);
    LifeGoesOn(routers, sent, more, |more|, u.dst, u.rid, u.seqNo, u.lsas);
    RecordsIn(Exec(routers, sent + more).value.dbs[u.dst], u.rid);
  }

  // ---------------------------------------------------------------- the order of entries

  /** The last event of the run at which router x learnt of router `rid` anew, counted from 1. */
  function LearntAt(routers: set<nat>, evs: seq<Event>, x: nat, rid: nat): nat
    requires Exec(routers, evs).Some? && x in routers
  {
    if evs == [] then 0
    else
      var front := evs[..|evs| - 1];
      ExecRouters(routers, front);
      ExecRouters(routers, evs);
      if HasRecord(Exec(routers, evs).value.dbs[x], rid) && !HasRecord(Exec(routers, front).value.dbs[x], rid)
      then |evs| else LearntAt(routers, front, x, rid)
  }

  lemma {:induction false} LearntBefore(routers: set<nat>, evs: seq<Event>, x: nat, rid: nat)
    requires Exec(routers, evs).Some? && x in routers
    ensures LearntAt(routers, evs, x, rid) <= |evs|
  {
    if evs != [] {
      LearntBefore(routers, evs[..|evs| - 1], x, rid);
    }
  }

  /** `i` and `j` stand in `after` as two older entries did in `before`. */
  ghost predicate StoodSo(before: seq<Record>, after: seq<Record>, i: nat, j: nat)
    requires i < j < |after|
  {
    exists k: nat, l: nat :: k < l < |before| && before[k].rid == after[i].rid && before[l].rid == after[j].rid
  }

  lemma StandsSo(before: seq<Record>, after: seq<Record>, i: nat, j: nat, k: nat, l: nat)
    requires i < j < |after| && k < l < |before| && before[k].rid == after[i].rid && before[l].rid == after[j].rid
    ensures StoodSo(before, after, i, j)
  {
  }

  lemma {:induction false} AgeKeepsOrder(db: seq<Record>, i: nat, j: nat)
    requires i < j < |Age(db)|
    ensures StoodSo(db, Age(db), i, j)
  {
    var front := db[..|db| - 1];
    if j < |Age(front)| {
      AgeKeepsOrder(front, i, j);
      var k: nat, l: nat :| k < l < |front| && front[k].rid == Age(front)[i].rid && front[l].rid == Age(front)[j].rid;
      assert db[k] == front[k] && db[l] == front[l];
      StandsSo(db, Age(db), i, j, k, l);
    } else {
      AgeMembers(front, i);
      var k :| 0 <= k < |front| && front[k].(alive := 0) == Age(front)[i].(alive := 0);
      assert db[k] == front[k];
      StandsSo(db, Age(db), i, j, k, |db| - 1);
    }
  }

  /** In every run a router's database, and so its list of routers, is in the order in which it last
      learnt of each. */
  lemma {:induction false} OrderOfLearning(routers: set<nat>, evs: seq<Event>, x: nat, i: nat, j: nat)
    requires Exec(routers, evs).Some? && x in routers
    requires x in Exec(routers, evs).value.dbs && i < j < |Exec(routers, evs).value.dbs[x]|
    ensures var db := Exec(routers, evs).value.dbs[x];
            LearntAt(routers, evs, x, db[i].rid) < LearntAt(routers, evs, x, db[j].rid)
  {
    if evs != [] {
      var front, ev := evs[..|evs| - 1], evs[|evs| - 1];
      ExecRouters(routers, front);
      ExecRouters(routers, evs);
      var before, after := Exec(routers, front).value.dbs[x], Exec(routers, evs).value.dbs[x];
      LearntBefore(routers, front, x, after[i].rid);
      if StoodSo(before, after, i, j) {
        var k: nat, l: nat :| k < l < |before| && before[k].rid == after[i].rid && before[l].rid == after[j].rid;
        OrderOfLearning(routers, front, x, k, l);
      } else {
        NewIsLast(Exec(routers, front).value, ev, x, i, j);
      }
    }
  }

  /** Entries that did not stand so before: the second has just been learnt. */
  lemma NewIsLast(net: Net, ev: Event, x: nat, i: nat, j: nat)
    requires Enabled(net, ev) && x in net.dbs && i < j < |Next(net, ev).dbs[x]|
    requires !StoodSo(net.dbs[x], Next(net, ev).dbs[x], i, j)
    ensures HasRecord(net.dbs[x], Next(net, ev).dbs[x][i].rid) && !HasRecord(net.dbs[x], Next(net, ev).dbs[x][j].rid)
  {
    var before, after := net.dbs[x], Next(net, ev).dbs[x];
    match ev
    case AgeDb(r) =>
      if r == x {
        AgeKeepsOrder(before, i, j);
      } else {
        StandsSo(before, after, i, j, i, j);
      }
    case Originate(_, _, _) => StandsSo(before, after, i, j, i, j);
    case Deliver(u, _) =>
      if u.dst != x || HasRecord(before, u.rid) || j < |before| {
        StandsSo(before, after, i, j, i, j);
      } else {
        assert after[i] == before[i] && after[j].rid == u.rid;
      }
  }
}
