/**
 The time-windowed reaper: what each zone of a class's purge window lets happen to the class's
 hosts, in one pass and over a whole run of cycles. Whether a host row can be deleted and whether
 the clearing of a window can be committed is decided outside.
 */
module Reaper {
  import opened Common
  import opened Autoscale
  import opened Demand

  /** The key of a row in the host table. */
  datatype HostId = HostId(key: int)

  const IDLE_MINUTES := 15

  datatype Host = Host(classId: Option<ClassId>, updatedAt: Option<Time>)

  datatype Window = Window(purgeAfter: Time, purgeBy: Time)

  /** The host table and the purge windows of the classes that have one. */
  datatype Db = Db(windows: map<ClassId, Window>, hosts: map<HostId, Host>)

  /** Rows whose deletion fails, classes whose clearing is rolled back, and whether this is a dry run. */
  datatype Pass = Pass(now: Time, dryRun: bool, undeletable: set<HostId>, uncommitted: set<ClassId>)

  predicate Idle(h: Host, now: Time) {
    h.updatedAt.Some? && now - h.updatedAt.value >= IDLE_MINUTES * MINUTE
  }

  /** The hosts on which a pass tries its hand for one class. */
  predicate Attempted(h: Host, c: ClassRow, now: Time) {
    h.classId == Some(c.id) && match ZoneOf(c.purgeAfter, c.purgeBy, now)
      case Protected => false
      case Active => Idle(h, now)
      case Dormant => true
  }

  function ReapClass(db: Db, c: ClassRow, p: Pass): Db {
    if p.dryRun then db
    else Db(if ZoneOf(c.purgeAfter, c.purgeBy, p.now) == Dormant && c.id !in p.uncommitted then db.windows - {c.id} else db.windows,
            map h | h in db.hosts && !(Attempted(db.hosts[h], c, p.now) && h !in p.undeletable) :: db.hosts[h])
  }

  function Reap(db: Db, classes: seq<ClassRow>, p: Pass): Db
    decreases |classes|
  {
    if classes == [] then db else Reap(ReapClass(db, classes[0], p), classes[1..], p)
  }

  function ZonesOf(classes: seq<ClassRow>, now: Time): map<ClassId, Zone> {
    if classes == [] then map[]
    else
      var last := classes[|classes| - 1];
      ZonesOf(classes[..|classes| - 1], now)[last.id := ZoneOf(last.purgeAfter, last.purgeBy, now)]
  }

  lemma ProtectedClassUntouched(db: Db, c: ClassRow, p: Pass)
    requires ZoneOf(c.purgeAfter, c.purgeBy, p.now) == Protected
    ensures ReapClass(db, c, p) == db
  {
  }

  class Tables {
    var windows: map<ClassId, Window>
    var hosts: map<HostId, Host>

    function Value(): Db
      reads this
    {
      Db(windows, hosts)
    }

    method ApplyReaperZones(classes: seq<ClassRow>, p: Pass) returns (zones: map<ClassId, Zone>)
      modifies this
      ensures Value() == Reap(old(Value()), classes, p)
      ensures zones == ZonesOf(classes, p.now)
    {
      zones := map[];
      for i := 0 to |classes|
        invariant Reap(old(Value()), classes, p) == Reap(Value(), classes[i..], p)
        invariant zones == ZonesOf(classes[..i], p.now)
      {
        var c := classes[i];
        assert classes[i..][1..] == classes[i + 1..];
        assert classes[..i + 1][..i] == classes[..i];
        ghost var before := Value();
        if p.now < c.purgeAfter {
          zones := zones[c.id := Protected];
          ProtectedClassUntouched(before, c, p);
        } else if p.now >= c.purgeBy {
          zones := zones[c.id := Dormant];
          ReapHosts(c, p);
          if !p.dryRun && c.id !in p.uncommitted {
            windows := windows - {c.id};
          }
        } else {
          zones := zones[c.id := Active];
          ReapHosts(c, p);
        }
        assert Value() == ReapClass(before, c, p);
      }
      assert classes[..|classes|] == classes;
    }

    /** The loop over a class's hosts: all of them in the dormant zone, the idle ones in the active zone. */
    method ReapHosts(c: ClassRow, p: Pass)
      requires ZoneOf(c.purgeAfter, c.purgeBy, p.now) != Protected
      modifies this`hosts
      ensures hosts == ReapClass(old(Value()), c, p).hosts
    {
      var todo := set h | h in hosts && hosts[h].classId == Some(c.id);
      while todo != {}
        invariant todo <= hosts.Keys <= old(hosts).Keys
        invariant forall h :: h in old(hosts) ==>
          (h in hosts <==> h in todo || p.dryRun || h in p.undeletable || !Attempted(old(hosts)[h], c, p.now))
        invariant forall h :: h in hosts ==> hosts[h] == old(hosts)[h]
        invariant forall h :: h in todo ==> hosts[h].classId == Some(c.id)
        decreases |todo|
      {
        assert |todo| > 0;
        var h :| h in todo;
        todo := todo - {h};
        var idle := hosts[h].updatedAt.Some? && p.now - hosts[h].updatedAt.value >= IDLE_MINUTES * MINUTE;
        if p.now >= c.purgeBy || idle {
          if !p.dryRun && h !in p.undeletable {
            hosts := hosts - {h};
          }
        }
      }
    }
  }

  // ---- One pass ----

  ghost predicate DistinctClasses(classes: seq<ClassRow>) {
    forall i, j :: 0 <= i < j < |classes| ==> classes[i].id != classes[j].id
  }

  /** A host is gone after a pass exactly when some class's zone had the pass try it and its row could be deleted. */
  lemma {:induction false} ReapedExactly(db: Db, classes: seq<ClassRow>, p: Pass, h: HostId)
    requires h in db.hosts && !p.dryRun
    ensures var after := Reap(db, classes, p).hosts;
      && (h in after <==> h in p.undeletable || forall c :: c in classes ==> !Attempted(db.hosts[h], c, p.now))
      && (h in after ==> after[h] == db.hosts[h])
    decreases |classes|
  {
    if classes != [] {
      var db1 := ReapClass(db, classes[0], p);
      assert forall c :: c in classes <==> c == classes[0] || c in classes[1..];
      if h in db1.hosts {
        ReapedExactly(db1, classes[1..], p, h);
      } else {
        NeverAdds(db1, classes[1..], p, h);
      }
    }
  }

  lemma {:induction false} NeverAdds(db: Db, classes: seq<ClassRow>, p: Pass, h: HostId)
    requires h !in db.hosts
    ensures h !in Reap(db, classes, p).hosts
    decreases |classes|
  {
    if classes != [] {
      NeverAdds(ReapClass(db, classes[0], p), classes[1..], p, h);
    }
  }

  lemma SameClass(classes: seq<ClassRow>, a: ClassRow, b: ClassRow)
    requires DistinctClasses(classes) && a in classes && b in classes && a.id == b.id
    ensures a == b
  {
    var i :| 0 <= i < |classes| && classes[i] == a;
    var j :| 0 <= j < |classes| && classes[j] == b;
    assert i == j;
  }

  /**
   What the zone of its class means for a host: untouched while protected, stopped exactly when idle
   for fifteen minutes while active, stopped in any case when dormant.
   */
  lemma ZoneDecides(db: Db, classes: seq<ClassRow>, p: Pass, c: ClassRow, h: HostId)
    requires DistinctClasses(classes) && c in classes && !p.dryRun
    requires h in db.hosts && db.hosts[h].classId == Some(c.id) && h !in p.undeletable
    ensures h in Reap(db, classes, p).hosts <==>
      if p.now < c.purgeAfter then true
      else if p.now >= c.purgeBy then false
      else db.hosts[h].updatedAt.None? || p.now - db.hosts[h].updatedAt.value < 15 * 60_000_000
  {
    ReapedExactly(db, classes, p, h);
    forall x | x in classes && x.id == c.id ensures x == c {
      SameClass(classes, x, c);
    }
  }

  /** A host that no class row claims, or whose deletion fails, stays; every row that stays is unchanged, and none appears. */
  lemma OthersStay(db: Db, classes: seq<ClassRow>, p: Pass, h: HostId)
    ensures var after := Reap(db, classes, p).hosts;
      && (h !in db.hosts ==> h !in after)
      && (h in after ==> h in db.hosts && after[h] == db.hosts[h])
      && (h in db.hosts && (h in p.undeletable || p.dryRun || forall c :: c in classes ==> db.hosts[h].classId != Some(c.id)) ==> h in after)
  {
    if h !in db.hosts {
      NeverAdds(db, classes, p, h);
    } else if p.dryRun {
      DryRunChangesNothing(db, classes, p);
    } else {
      ReapedExactly(db, classes, p, h);
    }
  }

  /** The summary names the zone of every class that was read, and of no other. */
  lemma {:induction false} ZonesTell(classes: seq<ClassRow>, now: Time)
    requires DistinctClasses(classes)
    ensures forall id :: id in ZonesOf(classes, now) ==> exists c :: c in classes && c.id == id
    ensures forall c | c in classes ::
      && c.id in ZonesOf(classes, now)
      && (ZonesOf(classes, now)[c.id] == Protected <==> now < c.purgeAfter)
      && (ZonesOf(classes, now)[c.id] == Active <==> c.purgeAfter <= now < c.purgeBy)
      && (ZonesOf(classes, now)[c.id] == Dormant <==> now >= c.purgeAfter && now >= c.purgeBy)
  {
    if classes != [] {
      var init, last := classes[..|classes| - 1], classes[|classes| - 1];
      ZonesTell(init, now);
      assert forall c :: c in classes <==> c in init || c == last;
      forall c | c in init ensures c.id != last.id {
        var i :| 0 <= i < |init| && init[i] == c;
        assert classes[i].id != last.id;
      }
    }
  }

  /** After a dormant pass in which every deletion succeeded the class has no host left. */
  lemma DormantLeavesNone(db: Db, classes: seq<ClassRow>, p: Pass, c: ClassRow)
    requires DistinctClasses(classes) && c in classes && !p.dryRun && p.undeletable == {}
    requires ZoneOf(c.purgeAfter, c.purgeBy, p.now) == Dormant
    ensures var after := Reap(db, classes, p).hosts; forall h :: h in after ==> after[h].classId != Some(c.id)
  {
    var after := Reap(db, classes, p).hosts;
    forall h | h in after ensures after[h].classId != Some(c.id) {
      if h in db.hosts {
        ReapedExactly(db, classes, p, h);
        if db.hosts[h].classId == Some(c.id) {
          ZoneDecides(db, classes, p, c, h);
        }
      } else {
        NeverAdds(db, classes, p, h);
      }
    }
  }

  lemma {:induction false} DryRunChangesNothing(db: Db, classes: seq<ClassRow>, p: Pass)
    requires p.dryRun
    ensures Reap(db, classes, p) == db
    decreases |classes|
  {
    if classes != [] {
      DryRunChangesNothing(db, classes[1..], p);
    }
  }

  /** A window is cleared exactly by a committed dormant pass, whether or not the deletions succeeded. */
  predicate Clears(c: ClassRow, p: Pass) {
    !p.dryRun && ZoneOf(c.purgeAfter, c.purgeBy, p.now) == Dormant && c.id !in p.uncommitted
  }

  lemma {:induction false} WindowAfterPass(db: Db, classes: seq<ClassRow>, p: Pass, id: ClassId)
    requires id in db.windows
    ensures var after := Reap(db, classes, p).windows;
      && (id in after <==> forall c | c in classes && c.id == id ::
            p.dryRun || p.now < c.purgeAfter || p.now < c.purgeBy || id in p.uncommitted)
      && (id in after ==> after[id] == db.windows[id])
    decreases |classes|
  {
    if classes != [] {
      var db1 := ReapClass(db, classes[0], p);
      assert forall c :: c in classes <==> c == classes[0] || c in classes[1..];
      if id in db1.windows {
        WindowAfterPass(db1, classes[1..], p, id);
      } else {
        NoWindowComesBack(db1, classes[1..], p, id);
      }
    }
  }

  lemma {:induction false} NoWindowComesBack(db: Db, classes: seq<ClassRow>, p: Pass, id: ClassId)
    requires id !in db.windows
    ensures id !in Reap(db, classes, p).windows
    decreases |classes|
  {
    if classes != [] {
      NoWindowComesBack(ReapClass(db, classes[0], p), classes[1..], p, id);
    }
  }

  // ---- Whole runs ----

  /** A cycle: the tables it found, the rows it read from them, and its pass. */
  datatype Cycle = Cycle(db: Db, classes: seq<ClassRow>, pass: Pass)

  /** The rows are those of the classes that have a window. */
  ghost predicate Reads(k: Cycle) {
    && DistinctClasses(k.classes)
    && (forall c :: c in k.classes ==>
          c.id in k.db.windows && k.db.windows[c.id] == Window(c.purgeAfter, c.purgeBy))
    && (forall id :: id in k.db.windows ==> exists c :: c in k.classes && c.id == id)
  }

  /** Between passes anything may happen to hosts and to other classes, but nobody edits the class's window. */
  ghost predicate Unedited(cycles: seq<Cycle>, id: ClassId) {
    && (forall i :: 0 <= i < |cycles| ==> Reads(cycles[i]))
    && (forall i :: 0 <= i < |cycles| - 1 ==> cycles[i].pass.now <= cycles[i + 1].pass.now)
    && (forall i :: 0 <= i < |cycles| - 1 ==>
          var after := Reap(cycles[i].db, cycles[i].classes, cycles[i].pass).windows;
          && (id in after <==> id in cycles[i + 1].db.windows)
          && (id in after ==> after[id] == cycles[i + 1].db.windows[id]))
  }

  predicate Processed(k: Cycle, id: ClassId) {
    id in k.db.windows
  }

  function ZoneIn(k: Cycle, id: ClassId): Zone
    requires Processed(k, id)
  {
    ZoneOf(k.db.windows[id].purgeAfter, k.db.windows[id].purgeBy, k.pass.now)
  }

  /** The cycle carries out and commits a dormant pass for the class. */
  predicate Commits(k: Cycle, id: ClassId) {
    Processed(k, id) && ZoneIn(k, id) == Dormant && !k.pass.dryRun && id !in k.pass.uncommitted
  }

  function Rank(z: Zone): int {
    match z case Protected => 0 case Active => 1 case Dormant => 2
  }

  /** One step of a run: the window is there next time exactly if this cycle did not commit its end. */
  lemma NextWindow(cycles: seq<Cycle>, id: ClassId, i: nat)
    requires Unedited(cycles, id) && i + 1 < |cycles|
    ensures Processed(cycles[i + 1], id) <==> Processed(cycles[i], id) && !Commits(cycles[i], id)
    ensures Processed(cycles[i + 1], id) ==> cycles[i + 1].db.windows[id] == cycles[i].db.windows[id]
  {
    var k := cycles[i];
    assert Reads(k);
    if Processed(k, id) {
      WindowAfterPass(k.db, k.classes, k.pass, id);
      var c :| c in k.classes && c.id == id;
      forall x | x in k.classes && x.id == id ensures Clears(x, k.pass) == Commits(k, id) {
        SameClass(k.classes, x, c);
      }
    } else {
      NoWindowComesBack(k.db, k.classes, k.pass, id);
    }
  }

  /**
   Over any run of cycles with a clock that does not run backwards, a class's zones go protected,
   then active, then dormant; and after the one committed dormant pass it is not processed again.
   */
  lemma {:induction false} ZonesAdvance(cycles: seq<Cycle>, id: ClassId, i: nat, j: nat)
    requires Unedited(cycles, id) && i < j < |cycles|
    ensures Processed(cycles[j], id) ==>
      && Processed(cycles[i], id)
      && !Commits(cycles[i], id)
      && cycles[j].db.windows[id] == cycles[i].db.windows[id]
      && Rank(ZoneIn(cycles[i], id)) <= Rank(ZoneIn(cycles[j], id))
    ensures cycles[i].pass.now <= cycles[j].pass.now
    decreases j - i
  {
    NextWindow(cycles, id, j - 1);
    if i < j - 1 {
      ZonesAdvance(cycles, id, i, j - 1);
    }
  }

  lemma AtMostOneCommit(cycles: seq<Cycle>, id: ClassId, i: nat, j: nat)
    requires Unedited(cycles, id) && i < |cycles| && j < |cycles|
    requires Commits(cycles[i], id) && Commits(cycles[j], id)
    ensures i == j
  {
    if i < j {
      ZonesAdvance(cycles, id, i, j);
      assert false;
    } else if j < i {
      ZonesAdvance(cycles, id, j, i);
      assert false;
    }
  }

  // ---- What a committed dormant pass leaves behind ----

  /** A host of the class outlives the pass exactly if its row cannot be deleted. */
  lemma DormantPassLeaves(k: Cycle, id: ClassId, h: HostId)
    requires Reads(k) && Commits(k, id)
    requires h in k.db.hosts && k.db.hosts[h].classId == Some(id)
    ensures h in Reap(k.db, k.classes, k.pass).hosts <==> h in k.pass.undeletable
  {
    var c :| c in k.classes && c.id == id;
    ReapedExactly(k.db, k.classes, k.pass, h);
    assert Attempted(k.db.hosts[h], c, k.pass.now);
  }

  /**
   The window goes even if a host could not be deleted, and with it the class: in every later cycle
   no pass tries any host of that class again, so whatever is left of it stays as it is.
   */
  lemma FailedDeleteIsForgotten(cycles: seq<Cycle>, id: ClassId, i: nat, j: nat)
    requires Unedited(cycles, id) && i < j < |cycles| && Commits(cycles[i], id)
    ensures forall c :: c in cycles[j].classes ==> c.id != id
    ensures forall h: Host, c :: h.classId == Some(id) && c in cycles[j].classes ==> !Attempted(h, c, cycles[j].pass.now)
    ensures var after := Reap(cycles[j].db, cycles[j].classes, cycles[j].pass).hosts;
      forall h :: h in cycles[j].db.hosts && cycles[j].db.hosts[h].classId == Some(id)
        ==> h in after && after[h] == cycles[j].db.hosts[h]
  {
    var k := cycles[j];
    ZonesAdvance(cycles, id, i, j);
    assert Reads(k) && !Processed(k, id);
    forall h | h in k.db.hosts && k.db.hosts[h].classId == Some(id)
      ensures var after := Reap(k.db, k.classes, k.pass).hosts; h in after && after[h] == k.db.hosts[h]
    {
      if k.pass.dryRun {
        DryRunChangesNothing(k.db, k.classes, k.pass);
      } else {
        ReapedExactly(k.db, k.classes, k.pass, h);
      }
    }
  }

  /** From cycle i on only the reaper touches the host's row. */
  ghost predicate LeftAlone(cycles: seq<Cycle>, h: HostId, i: nat) {
    forall t :: i <= t < |cycles| - 1 ==>
      var after := Reap(cycles[t].db, cycles[t].classes, cycles[t].pass).hosts;
      && (h in after <==> h in cycles[t + 1].db.hosts)
      && (h in after ==> after[h] == cycles[t + 1].db.hosts[h])
  }

  /** Hence a host the dormant pass could not delete is still in the table, as it was, however many cycles follow. */
  lemma {:induction false} UndeletedHostStays(cycles: seq<Cycle>, id: ClassId, h: HostId, i: nat, j: nat)
    requires Unedited(cycles, id) && i < j < |cycles| && Commits(cycles[i], id) && LeftAlone(cycles, h, i)
    requires h in cycles[i].db.hosts && cycles[i].db.hosts[h].classId == Some(id)
    ensures h in cycles[j].db.hosts <==> h in cycles[i].pass.undeletable
    ensures h in cycles[j].db.hosts ==> cycles[j].db.hosts[h] == cycles[i].db.hosts[h]
    decreases j - i
  {
    if j == i + 1 {
      DormantPassLeaves(cycles[i], id, h);
      ReapedExactly(cycles[i].db, cycles[i].classes, cycles[i].pass, h);
    } else {
      UndeletedHostStays(cycles, id, h, i, j - 1);
      FailedDeleteIsForgotten(cycles, id, i, j - 1);
      var k := cycles[j - 1];
      if h !in k.db.hosts {
        NeverAdds(k.db, k.classes, k.pass, h);
      }
    }
  }

  /** A pass in which that happens: host 7 of class 1 stays in the table and the window is gone. */
  lemma FailedDeleteExample() returns (k: Cycle)
    ensures Reads(k) && Commits(k, 1) && k.db.hosts == map[HostId(7) := Host(Some(1), Some(5))]
    ensures var after := Reap(k.db, k.classes, k.pass); after.windows == map[] && after.hosts == k.db.hosts
  {
    var c := ClassRow(1, 0, 10, 3);
    var db := Db(map[1 := Window(0, 10)], map[HostId(7) := Host(Some(1), Some(5))]);
    var p := Pass(20, false, {HostId(7)}, {});
    k := Cycle(db, [c], p);
    assert c in k.classes;
    assert Reap(db, [c], p) == Reap(ReapClass(db, c, p), [], p) by { assert [c][1..] == []; }
  }
}
