/**
 Reconciliation of the code-host table with the services the swarm reports: `sync`, the notion of a
 settled host, and `sync_converge`, which repeats `sync` until every host is settled or it runs out
 of passes or time.
 */
module HostSync {
  import opened Common

  type ServiceId = string

  const MIA := "mia"
  const RUNNING := "running"
  const READY := "ready"
  const UNKNOWN := "unknown"

  /** A row of the table; `appState` is nullable. */
  datatype Row = Row(state: string, appState: Option<string>)

  type Table = map<ServiceId, Row>

  /** What looking at one service yields: the step fails, or the service's status, whether its node is gone, whether it answers. */
  datatype Probe = Fails | Found(status: string, nodeMissing: bool, ready: bool)

  /** The swarm as one `sync` sees it: the ids listed, and a probe answer for each. */
  datatype Swarm = Swarm(ids: set<ServiceId>, probes: map<ServiceId, Probe>)

  predicate IsMia(r: Row) {
    r.appState == Some(MIA) || r.state == MIA
  }

  /** Fully up or definitively gone. */
  predicate Settled(r: Row) {
    IsMia(r) || r.appState == Some(READY)
  }

  /**
   The query for rows still to be looked at, with SQL's three-valued comparison: a null app state
   does not count as different from ready.
   */
  predicate NotReady(r: Row) {
    r.state != RUNNING || (r.appState.Some? && r.appState.value != READY)
  }

  // ---- One service ----

  /** The state and, where the model sets one, the app state that a service is written with. */
  function ModelState(p: Probe): string
    requires p.Found?
  {
    if p.nodeMissing then MIA else p.status
  }

  function ModelAppState(p: Probe, checkReady: bool): Option<string>
    requires p.Found?
  {
    if checkReady && p.ready then Some(READY) else if p.nodeMissing then Some(MIA) else None
  }

  /** An existing row takes over what the model sets and keeps its app state otherwise; a new one starts unknown. */
  function Written(before: Option<Row>, p: Probe, checkReady: bool): Row
    requires p.Found?
  {
    var kept := if before.Some? then before.value.appState else Some(UNKNOWN);
    Row(ModelState(p), if ModelAppState(p, checkReady).Some? then ModelAppState(p, checkReady) else kept)
  }

  /**
   What a written row says: MIA exactly as the node is gone or the service reports so, else the
   reported status; ready if asked and found so, MIA if the node is gone, otherwise the app state
   there was, "unknown" for a new row.
   */
  ghost predicate Reflects(after: Row, before: Option<Row>, p: Probe, checkReady: bool)
    requires p.Found?
  {
    && (p.nodeMissing ==> after.state == "mia")
    && (!p.nodeMissing ==> after.state == p.status)
    && (checkReady && p.ready ==> after.appState == Some("ready"))
    && (!(checkReady && p.ready) && p.nodeMissing ==> after.appState == Some("mia"))
    && (!(checkReady && p.ready) && !p.nodeMissing && before.Some? ==> after.appState == before.value.appState)
    && (!(checkReady && p.ready) && !p.nodeMissing && before.None? ==> after.appState == Some("unknown"))
  }

  function ProbeOf(sw: Swarm, id: ServiceId): Probe {
    if id in sw.probes then sw.probes[id] else Fails
  }

  // ---- The table after a sync ----

  /** What `sync` makes of one id, given its row and what the swarm says. */
  function Synced(row: Option<Row>, listed: bool, p: Probe, checkReady: bool): Option<Row> {
    match row
    case None => if listed && p.Found? then Some(Written(None, p, checkReady)) else None
    case Some(r) =>
      if !listed then Some(Row(MIA, Some(MIA)))
      else if NotReady(r) && r.state != MIA && p.Found? then Some(Written(row, p, checkReady))
      else row
  }

  function RowOf(t: Table, id: ServiceId): Option<Row> {
    if id in t then Some(t[id]) else None
  }

  function SyncedAt(t: Table, sw: Swarm, checkReady: bool, id: ServiceId): Option<Row> {
    Synced(RowOf(t, id), id in sw.ids, ProbeOf(sw, id), checkReady)
  }

  function Sync(t: Table, sw: Swarm, checkReady: bool): Table {
    map id | id in t.Keys + sw.ids && SyncedAt(t, sw, checkReady, id).Some? :: SyncedAt(t, sw, checkReady, id).value
  }

  lemma SyncAt(t: Table, sw: Swarm, checkReady: bool, id: ServiceId)
    ensures RowOf(Sync(t, sw, checkReady), id) == SyncedAt(t, sw, checkReady, id)
  {
  }

  /** The three stages of a sync, id by id. */
  ghost function MarkedRow(t: Table, missing: set<ServiceId>, id: ServiceId): Option<Row> {
    if id in missing && id in t then Some(Row(MIA, Some(MIA))) else RowOf(t, id)
  }

  ghost function UpdatedRow(t: Table, sw: Swarm, checkReady: bool, id: ServiceId): Option<Row> {
    if id in t && NotReady(t[id]) && t[id].state != MIA && ProbeOf(sw, id).Found?
    then Some(Written(RowOf(t, id), ProbeOf(sw, id), checkReady)) else RowOf(t, id)
  }

  ghost function NewRow(t: Table, notInDb: set<ServiceId>, sw: Swarm, checkReady: bool, id: ServiceId): Option<Row> {
    if id in notInDb && ProbeOf(sw, id).Found? then Some(Written(None, ProbeOf(sw, id), checkReady)) else RowOf(t, id)
  }

  class HostTable {
    var rows: Table

    /** Writes one service's state, if looking at it succeeds. */
    method SyncToDb(id: ServiceId, p: Probe, checkReady: bool)
      modifies this
      ensures rows == if p.Found? then old(rows)[id := Written(RowOf(old(rows), id), p, checkReady)] else old(rows)
      ensures p.Found? ==> id in rows && Reflects(rows[id], RowOf(old(rows), id), p, checkReady)
    {
      if p.Fails? {
        return;
      }
      var state, appState := p.status, None;
      if p.nodeMissing {
        state, appState := MIA, Some(MIA);
      }
      if checkReady && p.ready {
        appState := Some(READY);
      }
      if id in rows {
        var ch := rows[id];
        rows := rows[id := Row(state, if appState.Some? then appState else ch.appState)];
      } else {
        rows := rows[id := Row(state, if appState.Some? then appState else Some(UNKNOWN))];
      }
    }

    method SyncAll(sw: Swarm, checkReady: bool)
      modifies this
      ensures rows == Sync(old(rows), sw, checkReady)
    {
      var inDb, inSwarm := rows.Keys, sw.ids;
      var notInDb, notInSwarm := inSwarm - inDb, inDb - inSwarm;
      ghost var t := rows;
      MarkMissing(notInSwarm);
      ghost var marked := rows;
      SyncNotReady(sw, checkReady);
      ghost var updated := rows;
      forall id | id in notInDb ensures id !in rows {
        assert RowOf(marked, id) == MarkedRow(t, notInSwarm, id) == None;
        assert RowOf(updated, id) == UpdatedRow(marked, sw, checkReady, id) == None;
      }
      SyncNew(notInDb, sw, checkReady);
      forall id ensures RowOf(rows, id) == RowOf(Sync(t, sw, checkReady), id) {
        SyncAt(t, sw, checkReady, id);
        assert RowOf(marked, id) == MarkedRow(t, notInSwarm, id);
        assert RowOf(updated, id) == UpdatedRow(marked, sw, checkReady, id);
      }
      SameTable(rows, Sync(t, sw, checkReady));
    }

    /** Every row not known to be up is written afresh, one by one; a failure only skips that row. */
    method SyncNotReady(sw: Swarm, checkReady: bool)
      modifies this
      ensures forall id :: RowOf(rows, id) == UpdatedRow(old(rows), sw, checkReady, id)
    {
      var notReadyHosts := set id | id in rows && NotReady(rows[id]);
      var todo := notReadyHosts;
      while todo != {}
        invariant todo <= notReadyHosts
        invariant forall id ::
          RowOf(rows, id) == (if id in todo then RowOf(old(rows), id) else UpdatedRow(old(rows), sw, checkReady, id))
        decreases |todo|
      {
        assert |todo| > 0;
        var id :| id in todo;
        assert RowOf(rows, id) == RowOf(old(rows), id);
        if rows[id].state != MIA {
          SyncToDb(id, ProbeOf(sw, id), checkReady);
        }
        todo := todo - {id};
      }
    }

    /** Services without a row get one. */
    method SyncNew(notInDb: set<ServiceId>, sw: Swarm, checkReady: bool)
      requires forall id :: id in notInDb ==> id !in rows
      modifies this
      ensures forall id :: RowOf(rows, id) == NewRow(old(rows), notInDb, sw, checkReady, id)
    {
      var todo := notInDb;
      while todo != {}
        invariant todo <= notInDb
        invariant forall id ::
          RowOf(rows, id) == (if id in todo then RowOf(old(rows), id) else NewRow(old(rows), notInDb, sw, checkReady, id))
        decreases |todo|
      {
        assert |todo| > 0;
        var id :| id in todo;
        assert RowOf(rows, id) == RowOf(old(rows), id);
        SyncToDb(id, ProbeOf(sw, id), checkReady);
        todo := todo - {id};
      }
    }

    /** Rows whose service the swarm no longer lists go missing in action. */
    method MarkMissing(missing: set<ServiceId>)
      modifies this
      ensures forall id :: RowOf(rows, id) == MarkedRow(old(rows), missing, id)
    {
      var todo := missing;
      while todo != {}
        invariant todo <= missing
        invariant forall id ::
          RowOf(rows, id) == (if id in todo then RowOf(old(rows), id) else MarkedRow(old(rows), missing, id))
        decreases |todo|
      {
        assert |todo| > 0;
        var id :| id in todo;
        assert RowOf(rows, id) == RowOf(old(rows), id);
        if id in rows {
          rows := rows[id := Row(MIA, Some(MIA))];
        }
        todo := todo - {id};
      }
    }

    /** The rows still worth another pass. */
    method UnsettledHosts() returns (names: set<ServiceId>)
      ensures names == Unsettled(rows)
      ensures forall id :: id in names <==> id in rows && rows[id].state != "mia" && rows[id].appState !in {Some("mia"), Some("ready")}
    {
      names := {};
      var todo := rows.Keys;
      while todo != {}
        invariant todo <= rows.Keys
        invariant forall id :: id in names <==> id in rows && id !in todo && !Settled(rows[id])
        decreases |todo|
      {
        assert |todo| > 0;
        var id :| id in todo;
        todo := todo - {id};
        if IsMia(rows[id]) {
          continue;
        }
        if rows[id].appState == Some(READY) {
          continue;
        }
        names := names + {id};
      }
    }

    /**
     Repeated syncing. `world(k)` is the swarm the k-th pass meets, `clock` the successive readings of
     the clock: one at the start, then up to two in each pass. A sleep is recorded with the reading
     it was computed from.
     */
    method SyncConverge(maxPasses: int, deadline: real, initialDelay: real, maxDelay: real,
                        world: nat -> Swarm, clock: nat -> real)
        returns (passes: nat, unsettled: set<ServiceId>, sleeps: seq<(real, real)>)
      modifies this
      ensures rows == AfterPasses(old(rows), world, passes)
      ensures passes <= Max(maxPasses, 0) && (maxPasses >= 1 ==> passes >= 1)
      ensures passes >= 1 ==> unsettled == Unsettled(rows)
      ensures forall k :: 1 <= k < passes ==> Unsettled(AfterPasses(old(rows), world, k)) != {} && clock(2 * k - 1) - clock(0) < deadline
      ensures 1 <= passes < maxPasses ==> unsettled == {} || clock(2 * passes - 1) - clock(0) >= deadline
      ensures passes >= 1 ==> sleeps == Pauses(Waits(clock, deadline, initialDelay, maxDelay),
        if unsettled == {} || clock(2 * passes - 1) - clock(0) >= deadline then passes - 1 else passes)
      ensures passes == 0 ==> sleeps == []
    {
      hide *;
      ghost var w := Waits(clock, deadline, initialDelay, maxDelay);
      ghost var before := rows;
      StartOfRun(before, world, w, maxPasses);
      var start := clock(0);
      var reading: nat := 1;
      passes := 0;
      unsettled := {};
      sleeps := [];
      while passes < maxPasses
        invariant passes <= Max(maxPasses, 0) && reading == 2 * passes + 1
        invariant GoesOn(before, world, w, passes)
        invariant rows == AfterPasses(before, world, passes)
        invariant passes >= 1 ==> unsettled == Unsettled(rows)
        invariant sleeps == Pauses(w, passes)
      {
        passes := passes + 1;
        SyncAll(world(passes - 1), true);
        unsettled := UnsettledHosts();
        OnePass(before, world, passes);
        if unsettled == {} {
          break;
        }
        var now := clock(reading);
        reading := reading + 1;
        if now - start >= deadline {
          break;
        }
        var delay := MinReal(Grown(initialDelay, passes - 1), maxDelay);
        now := clock(reading);
        reading := reading + 1;
        delay := MinReal(delay, if deadline - (now - start) > 0.0 then deadline - (now - start) else 0.0);
        if delay > 0.0 {
          sleeps := sleeps + [(now, delay)];
        }
        OnePause(w, passes, delay);
        OneMore(before, world, w, passes);
      }
      if passes >= 1 {
        OneMore(before, world, w, passes);
        GoesOnMeans(before, world, w, passes - 1);
      }
    }
  }

  function MinReal(a: real, b: real): real {
    if a <= b then a else b
  }

  function Power(base: real, n: nat): real {
    if n == 0 then 1.0 else base * Power(base, n - 1)
  }

  /** The delay after k earlier pauses: half as long again each time. */
  function Grown(delay: real, k: nat): real {
    delay * Power(1.5, k)
  }

  function Unsettled(t: Table): set<ServiceId> {
    set id | id in t && !Settled(t[id])
  }

  function AfterPasses(t: Table, world: nat -> Swarm, n: nat): Table {
    if n == 0 then t else Sync(AfterPasses(t, world, n - 1), world(n - 1), true)
  }

  /** The clock and the limits of one converging run; pass k reads the clock at 2k - 1 and, if it goes on, at 2k. */
  datatype Waits = Waits(clock: nat -> real, deadline: real, initialDelay: real, maxDelay: real)

  /** After each of the first n passes some host was unsettled and there was time left. */
  ghost predicate GoesOn(t: Table, world: nat -> Swarm, w: Waits, n: nat) {
    n == 0 || (GoesOn(t, world, w, n - 1)
               && Unsettled(AfterPasses(t, world, n)) != {} && w.clock(2 * n - 1) - w.clock(0) < w.deadline)
  }

  lemma OneMore(t: Table, world: nat -> Swarm, w: Waits, n: nat)
    requires n >= 1
    ensures GoesOn(t, world, w, n) <==> (GoesOn(t, world, w, n - 1)
      && Unsettled(AfterPasses(t, world, n)) != {} && w.clock(2 * n - 1) - w.clock(0) < w.deadline)
  {
    hide AfterPasses, Unsettled;
  }

  lemma {:induction false} GoesOnMeans(t: Table, world: nat -> Swarm, w: Waits, n: nat)
    requires GoesOn(t, world, w, n)
    ensures forall k :: 1 <= k <= n ==> Unsettled(AfterPasses(t, world, k)) != {} && w.clock(2 * k - 1) - w.clock(0) < w.deadline
  {
    hide AfterPasses, Unsettled;
    if n > 0 {
      GoesOnMeans(t, world, w, n - 1);
    }
  }

  /** The pause after pass k: growing by half each time, capped, and cut to the time that is left. */
  function Pause(w: Waits, k: nat): real
    requires k >= 1
  {
    var left := w.deadline - (w.clock(2 * k) - w.clock(0));
    MinReal(MinReal(Grown(w.initialDelay, k - 1), w.maxDelay), if left > 0.0 then left else 0.0)
  }

  /** The pauses of n passes, each with the clock reading it starts from; an empty pause is not taken. */
  function Pauses(w: Waits, n: nat): seq<(real, real)> {
    if n == 0 then [] else Pauses(w, n - 1) + if Pause(w, n) > 0.0 then [(w.clock(2 * n), Pause(w, n))] else []
  }

  /** What the definitions say at the start of a run and at its k-th pass. */
  lemma StartOfRun(t: Table, world: nat -> Swarm, w: Waits, maxPasses: int)
    ensures GoesOn(t, world, w, 0) && AfterPasses(t, world, 0) == t && Pauses(w, 0) == [] && 0 <= Max(maxPasses, 0) && maxPasses <= Max(maxPasses, 0)
    ensures maxPasses <= 0 ==> Max(maxPasses, 0) == 0
  {
  }

  lemma OnePass(t: Table, world: nat -> Swarm, k: nat)
    requires k >= 1
    ensures AfterPasses(t, world, k) == Sync(AfterPasses(t, world, k - 1), world(k - 1), true)
  {
    hide Sync;
  }

  lemma OnePause(w: Waits, k: nat, delay: real)
    requires k >= 1
    requires var left := w.deadline - (w.clock(2 * k) - w.clock(0));
      delay == MinReal(MinReal(Grown(w.initialDelay, k - 1), w.maxDelay), if left > 0.0 then left else 0.0)
    ensures Pauses(w, k) == Pauses(w, k - 1) + if delay > 0.0 then [(w.clock(2 * k), delay)] else []
  {
  }

  /** The delay starts at the initial one and grows by half each time. */
  lemma GrownByHalf(delay: real, k: nat)
    ensures Grown(delay, 0) == delay && Grown(delay, k + 1) == 1.5 * Grown(delay, k)
  {
    assert Power(1.5, k + 1) == 1.5 * Power(1.5, k);
    assert delay * (1.5 * Power(1.5, k)) == 1.5 * (delay * Power(1.5, k));
  }

  /** A pause is the least of the grown delay, the cap and the time left, if any is left. */
  lemma PauseIsLeast(w: Waits, k: nat)
    requires k >= 1
    ensures var left := w.deadline - (w.clock(2 * k) - w.clock(0));
      && Pause(w, k) <= Grown(w.initialDelay, k - 1) && Pause(w, k) <= w.maxDelay
      && (left >= 0.0 ==> Pause(w, k) <= left) && (left < 0.0 ==> Pause(w, k) <= 0.0)
      && (Pause(w, k) == Grown(w.initialDelay, k - 1) || Pause(w, k) == w.maxDelay || Pause(w, k) == left || Pause(w, k) == 0.0)
      && (Pause(w, k) == 0.0 ==> left <= 0.0 || Grown(w.initialDelay, k - 1) <= 0.0 || w.maxDelay <= 0.0)
  {
  }

  /** No pause outlasts the deadline or the cap, and while time is left and delays are positive none is skipped. */
  lemma {:induction false} PausesEndInTime(w: Waits, n: nat)
    ensures forall s :: s in Pauses(w, n) ==> 0.0 < s.1 <= w.maxDelay && s.0 + s.1 <= w.clock(0) + w.deadline
    ensures
      (w.initialDelay > 0.0 && w.maxDelay > 0.0 && forall k :: 1 <= k <= n ==> w.clock(2 * k) - w.clock(0) < w.deadline)
      ==> |Pauses(w, n)| == n
  {
    if n > 0 {
      PausesEndInTime(w, n - 1);
      PowerPositive(n - 1);
    }
  }

  lemma {:induction false} PowerPositive(n: nat)
    ensures Power(1.5, n) > 0.0
  {
    if n > 0 {
      PowerPositive(n - 1);
    }
  }

  lemma SameTable(a: Table, b: Table)
    requires forall id :: RowOf(a, id) == RowOf(b, id)
    ensures a == b
  {
    forall id ensures id in a <==> id in b {
      assert RowOf(a, id) == RowOf(b, id);
    }
    forall id | id in a ensures a[id] == b[id] {
      assert RowOf(a, id) == RowOf(b, id);
    }
  }

  // ---- What a sync achieves ----

  /** Rows that are MIA, or running and not known to be unready, are not looked at again. */
  predicate LeftAlone(r: Row) {
    r.state == "mia" || (r.state == "running" && (r.appState == None || r.appState == Some("ready")))
  }

  /** A sync, row by row. */
  lemma SyncRow(t: Table, sw: Swarm, checkReady: bool, id: ServiceId)
    requires id in t
    ensures id in Sync(t, sw, checkReady)
    ensures var after, p := Sync(t, sw, checkReady)[id], ProbeOf(sw, id);
      if id !in sw.ids then after == Row("mia", Some("mia"))
      else if LeftAlone(t[id]) || p.Fails? then after == t[id]
      else Reflects(after, Some(t[id]), p, checkReady)
  {
    SyncAt(t, sw, checkReady, id);
  }

  /** And the services that had no row. */
  lemma SyncNewRow(t: Table, sw: Swarm, checkReady: bool, id: ServiceId)
    requires id !in t
    ensures id in Sync(t, sw, checkReady) <==> id in sw.ids && ProbeOf(sw, id).Found?
    ensures id in Sync(t, sw, checkReady) ==> Reflects(Sync(t, sw, checkReady)[id], None, ProbeOf(sw, id), checkReady)
  {
    SyncAt(t, sw, checkReady, id);
  }

  /** A listed row becomes MIA only because its node is gone or its service reports that status. */
  lemma MiaForAReason(t: Table, sw: Swarm, checkReady: bool, id: ServiceId)
    requires id in sw.ids && id in Sync(t, sw, checkReady)
    requires id in t ==> t[id].state != "mia" && t[id].appState != Some("mia")
    requires var r := Sync(t, sw, checkReady)[id]; r.state == "mia" || r.appState == Some("mia")
    ensures ProbeOf(sw, id).Found? && (ProbeOf(sw, id).nodeMissing || ProbeOf(sw, id).status == "mia")
  {
  }

  /** If looking at the services succeeds, every service has a row and every row without a service is MIA. */
  lemma SyncReconciles(t: Table, sw: Swarm, checkReady: bool, id: ServiceId)
    requires forall s :: s in sw.ids ==> ProbeOf(sw, s).Found?
    ensures var after := Sync(t, sw, checkReady);
      && (id in after <==> id in t || id in sw.ids)
      && (id in after && id !in sw.ids ==> after[id] == Row("mia", Some("mia")))
      && (id in sw.ids && id !in t ==> Reflects(after[id], None, ProbeOf(sw, id), checkReady))
  {
    SyncAt(t, sw, checkReady, id);
  }

  lemma SyncedTwice(row: Option<Row>, listed: bool, p: Probe, checkReady: bool)
    ensures Synced(Synced(row, listed, p, checkReady), listed, p, checkReady) == Synced(row, listed, p, checkReady)
  {
  }

  /** With the same swarm and the same answers, failures included, a second sync changes nothing. */
  lemma SyncIsIdempotent(t: Table, sw: Swarm, checkReady: bool)
    ensures Sync(Sync(t, sw, checkReady), sw, checkReady) == Sync(t, sw, checkReady)
  {
    var once := Sync(t, sw, checkReady);
    forall id ensures RowOf(Sync(once, sw, checkReady), id) == RowOf(once, id) {
      SyncAt(t, sw, checkReady, id);
      SyncAt(once, sw, checkReady, id);
      SyncedTwice(RowOf(t, id), id in sw.ids, ProbeOf(sw, id), checkReady);
    }
    SameTable(Sync(once, sw, checkReady), once);
  }

  /** No sync unsettles a settled row or loses a row, whatever fails. */
  lemma SettledStaysSettled(t: Table, sw: Swarm, checkReady: bool, id: ServiceId)
    requires id in t
    ensures id in Sync(t, sw, checkReady)
    ensures Settled(t[id]) ==> Settled(Sync(t, sw, checkReady)[id])
  {
    SyncAt(t, sw, checkReady, id);
  }

  /** Every pass of a convergence run asks for readiness: an unsettled listed host that answers is ready after it. */
  lemma EachPassProbes(t: Table, world: nat -> Swarm, k: nat, id: ServiceId)
    requires id in AfterPasses(t, world, k) && !LeftAlone(AfterPasses(t, world, k)[id])
    requires id in world(k).ids && ProbeOf(world(k), id).Found? && ProbeOf(world(k), id).ready
    ensures id in AfterPasses(t, world, k + 1) && AfterPasses(t, world, k + 1)[id].appState == Some("ready")
  {
    OnePass(t, world, k + 1);
    SyncRow(AfterPasses(t, world, k), world(k), true, id);
  }

  /** So over a whole convergence run, with a different swarm in every pass, hosts only become settled. */
  lemma {:induction false} SettledOverPasses(t: Table, world: nat -> Swarm, m: nat, n: nat, id: ServiceId)
    requires m <= n && id in AfterPasses(t, world, m) && Settled(AfterPasses(t, world, m)[id])
    ensures id in AfterPasses(t, world, n) && Settled(AfterPasses(t, world, n)[id])
    decreases n
  {
    if m < n {
      SettledOverPasses(t, world, m, n - 1, id);
      SettledStaysSettled(AfterPasses(t, world, n - 1), world(n - 1), true, id);
    }
  }

  /** A row once marked missing keeps that state, even if the swarm lists its service again later. */
  lemma {:induction false} MiaIsForever(t: Table, world: nat -> Swarm, m: nat, n: nat, id: ServiceId)
    requires m <= n && id in AfterPasses(t, world, m) && AfterPasses(t, world, m)[id].state == MIA
    ensures id in AfterPasses(t, world, n) && AfterPasses(t, world, n)[id].state == MIA
    decreases n
  {
    if m < n {
      MiaIsForever(t, world, m, n - 1, id);
      SyncAt(AfterPasses(t, world, n - 1), world(n - 1), true, id);
    }
  }
}
