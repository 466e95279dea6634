/**
 The protocol of admin-triggered node operations: every operation is a row in a shared table and
 one detached `op-run` process; all processes compete for one non-blocking file lock; processes
 and the whole container may die at any point, and the table is swept when the container boots.

 Two orderings make it delicate: a row is marked running before the lock is tried, and the lock is
 given up before the terminal status is written.
 */
module NodeOps {
  import opened Common

  type OpId = string
  type Time = int

  datatype Status = Pending | Running | Done | Failed | Interrupted

  datatype Row = Row(status: Status, exitCode: Option<int>, startedAt: Option<Time>, finishedAt: Option<Time>)

  predicate Terminal(st: Status) {
    st.Done? || st.Failed? || st.Interrupted?
  }

  /** Where an `op-run` process stands. A dead process was killed; an exited one returned. */
  datatype Pc =
    | NotLaunched
    | Starting
    | Locking
    | Refused
    | Executing
    | Releasing(success: bool)
    | Recording(success: bool)
    | Exited
    | Dead

  /** The container is up or down; one process per row; the lock's owner. */
  datatype State = State(up: bool, rows: map<OpId, Row>, pcs: map<OpId, Pc>, lock: Option<OpId>)

  const FreshRow := Row(Pending, None, None, None)

  const Initial := State(false, map[], map[], None)

  datatype Action =
    | Create(id: OpId)                  // the admin UI inserts the row
    | Launch(id: OpId)                  // and spawns the process, at most once
    | Begin(id: OpId, now: Time)        // the row goes running
    | TryLock(id: OpId)                 // taken, or refused at once
    | RecordRefusal(id: OpId, now: Time)
    | Finish(id: OpId, success: bool)   // the operation returned or raised
    | Release(id: OpId, freed: bool)    // unlocking may fail, and is then left to process exit
    | Record(id: OpId, now: Time)       // the terminal status
    | Crash(id: OpId)
    | Stop                              // the container dies with all its processes
    | Boot(now: Time)                   // it starts again and sweeps before any process runs

  // ---- Steps ----

  function At(s: State, id: OpId): Pc {
    if id in s.pcs then s.pcs[id] else NotLaunched
  }

  predicate Live(pc: Pc) {
    !pc.NotLaunched? && !pc.Exited? && !pc.Dead?
  }

  predicate Enabled(s: State, a: Action) {
    match a
    case Create(id) => s.up && id !in s.rows
    case Launch(id) => s.up && id in s.rows && At(s, id) == NotLaunched
    case Begin(id, _) => s.up && id in s.rows && At(s, id) == Starting
    case TryLock(id) => s.up && id in s.rows && At(s, id) == Locking
    case RecordRefusal(id, _) => s.up && id in s.rows && At(s, id) == Refused
    case Finish(id, _) => s.up && id in s.rows && At(s, id) == Executing
    case Release(id, _) => s.up && id in s.rows && At(s, id).Releasing?
    case Record(id, _) => s.up && id in s.rows && At(s, id).Recording?
    case Crash(id) => s.up && id in s.rows && Live(At(s, id))
    case Stop => s.up
    case Boot(_) => !s.up
  }

  /** The operating system frees a lock whose owner is gone. */
  function FreedBy(lock: Option<OpId>, id: OpId): Option<OpId> {
    if lock == Some(id) then None else lock
  }

  function FinalRow(row: Row, success: bool, now: Time): Row {
    row.(status := if success then Done else Failed, exitCode := Some(if success then 0 else 1), finishedAt := Some(now))
  }

  function SweptRow(row: Row, now: Time): Row {
    if row.status == Running
    then row.(status := Interrupted, exitCode := Some(1), finishedAt := Some(now))
    else row
  }

  function SweepRows(rows: map<OpId, Row>, now: Time): map<OpId, Row> {
    map id | id in rows :: SweptRow(rows[id], now)
  }

  function Killed(pcs: map<OpId, Pc>): map<OpId, Pc> {
    map id | id in pcs :: if Live(pcs[id]) then Dead else pcs[id]
  }

  function Apply(s: State, a: Action): State
    requires Enabled(s, a)
  {
    match a
    case Create(id) => s.(rows := s.rows[id := FreshRow], pcs := s.pcs[id := NotLaunched])
    case Launch(id) => s.(pcs := s.pcs[id := Starting])
    case Begin(id, now) =>
      s.(rows := s.rows[id := s.rows[id].(status := Running, startedAt := Some(now))], pcs := s.pcs[id := Locking])
    case TryLock(id) =>
      if s.lock.None? then s.(lock := Some(id), pcs := s.pcs[id := Executing]) else s.(pcs := s.pcs[id := Refused])
    case RecordRefusal(id, now) =>
      s.(rows := s.rows[id := FinalRow(s.rows[id], false, now)], pcs := s.pcs[id := Exited])
    case Finish(id, success) => s.(pcs := s.pcs[id := Releasing(success)])
    case Release(id, freed) =>
      s.(lock := if freed then None else s.lock, pcs := s.pcs[id := Recording(At(s, id).success)])
    case Record(id, now) =>
      s.(rows := s.rows[id := FinalRow(s.rows[id], At(s, id).success, now)], pcs := s.pcs[id := Exited],
         lock := FreedBy(s.lock, id))
    case Crash(id) => s.(pcs := s.pcs[id := Dead], lock := FreedBy(s.lock, id))
    case Stop => s.(up := false, pcs := Killed(s.pcs), lock := None)
    case Boot(now) => s.(up := true, rows := SweepRows(s.rows, now))
  }

  predicate IsRun(s: State, run: seq<Action>)
    decreases |run|
  {
    run == [] || (Enabled(s, run[0]) && IsRun(Apply(s, run[0]), run[1..]))
  }

  function After(s: State, run: seq<Action>): State
    requires IsRun(s, run)
    decreases |run|
  {
    if run == [] then s else After(Apply(s, run[0]), run[1..])
  }

  // ---- The invariant ----

  predicate InFlight(pc: Pc) {
    pc.Locking? || pc.Refused? || pc.Executing? || pc.Releasing? || pc.Recording?
  }

  /** A process that may own the lock. */
  predicate MayHold(pc: Pc) {
    pc.Executing? || pc.Releasing? || pc.Recording?
  }

  predicate RowOk(row: Row) {
    && (row.finishedAt.Some? <==> Terminal(row.status))
    && (row.exitCode == Some(0) <==> row.status == Done)
    && (row.exitCode == Some(1) <==> row.status == Failed || row.status == Interrupted)
    && (row.exitCode.Some? ==> row.exitCode.value in {0, 1})
    && (row.startedAt.Some? <==> row.status != Pending)
  }

  /** What ties a row to its process, to the lock and to the container. */
  predicate Agree(row: Row, pc: Pc, owner: bool, up: bool) {
    && RowOk(row)
    && (pc.NotLaunched? || pc.Starting? ==> row.status == Pending)
    && (InFlight(pc) ==> row.status == Running)
    && (pc.Exited? ==> Terminal(row.status))
    && (pc.Executing? || pc.Releasing? ==> owner)
    && (owner ==> MayHold(pc))
    && (!up ==> !Live(pc))
  }

  ghost predicate AgreeAt(s: State, id: OpId)
    requires id in s.rows && id in s.pcs
  {
    Agree(s.rows[id], s.pcs[id], s.lock == Some(id), s.up)
  }

  ghost predicate Inv(s: State) {
    && s.rows.Keys == s.pcs.Keys
    && (s.lock.Some? ==> s.lock.value in s.rows)
    && (forall id :: id in s.rows ==> AgreeAt(s, id))
  }

  /** The operation whose process or row the action is about. */
  function Actor(a: Action): Option<OpId> {
    match a
    case Create(id) => Some(id)
    case Launch(id) => Some(id)
    case Begin(id, _) => Some(id)
    case TryLock(id) => Some(id)
    case RecordRefusal(id, _) => Some(id)
    case Finish(id, _) => Some(id)
    case Release(id, _) => Some(id)
    case Record(id, _) => Some(id)
    case Crash(id) => Some(id)
    case Stop => None
    case Boot(_) => None
  }

  /** The operation that acts: created, or moved on by its own process. */
  lemma AgreeCreated(s: State, id: OpId)
    requires Inv(s) && Enabled(s, Create(id))
    ensures AgreeAt(Apply(s, Create(id)), id)
  {
  }

  lemma AgreeActor(s: State, a: Action, id: OpId)
    requires Enabled(s, a) && Actor(a) == Some(id) && id in s.rows && id in s.pcs && AgreeAt(s, id)
    ensures id in Apply(s, a).rows && id in Apply(s, a).pcs && AgreeAt(Apply(s, a), id)
  {
  }

  /** Any other operation keeps its row and process, and the lock changes hands only when it is free. */
  lemma AgreeBystander(s: State, a: Action, x: OpId, id: OpId)
    requires Enabled(s, a) && Actor(a) == Some(x) && x != id
    requires id in s.rows && id in s.pcs && AgreeAt(s, id)
    requires x in s.rows && x in s.pcs ==> AgreeAt(s, x)
    ensures id in Apply(s, a).rows && id in Apply(s, a).pcs && AgreeAt(Apply(s, a), id)
  {
    var s' := Apply(s, a);
    assert id in s'.rows && s'.rows[id] == s.rows[id] && id in s'.pcs && s'.pcs[id] == s.pcs[id];
    assert s.lock == Some(id) <==> s'.lock == Some(id) by {
      hide Killed, SweepRows, FinalRow, RowOk;
    }
  }

  /** The container stops or boots. */
  lemma AgreeContainer(s: State, a: Action, id: OpId)
    requires Enabled(s, a) && Actor(a) == None && id in s.rows && id in s.pcs && AgreeAt(s, id)
    requires a.Boot? ==> s.lock == None
    ensures id in Apply(s, a).rows && id in Apply(s, a).pcs && AgreeAt(Apply(s, a), id)
  {
  }

  lemma AgreeStep(s: State, a: Action, id: OpId)
    requires Inv(s) && Enabled(s, a) && id in Apply(s, a).rows
    ensures id in Apply(s, a).pcs && AgreeAt(Apply(s, a), id)
  {
    if s.lock.Some? {
      assert AgreeAt(s, s.lock.value);
    }
    if Actor(a).None? {
      AgreeContainer(s, a, id);
    } else if Actor(a).value != id {
      AgreeBystander(s, a, Actor(a).value, id);
    } else if a.Create? {
      AgreeCreated(s, id);
    } else {
      AgreeActor(s, a, id);
    }
  }

  lemma InvStep(s: State, a: Action)
    requires Inv(s) && Enabled(s, a)
    ensures Inv(Apply(s, a))
  {
    hide AgreeAt;
    forall id | id in Apply(s, a).rows ensures id in Apply(s, a).pcs && AgreeAt(Apply(s, a), id) {
      AgreeStep(s, a, id);
    }
  }

  lemma {:induction false} InvRun(s: State, run: seq<Action>)
    requires Inv(s) && IsRun(s, run)
    ensures Inv(After(s, run))
    decreases |run|
  {
    if run != [] {
      InvStep(s, run[0]);
      InvRun(Apply(s, run[0]), run[1..]);
    }
  }

  // ---- Safety over every interleaving ----

  ghost predicate Reachable(s: State) {
    exists run :: IsRun(Initial, run) && After(Initial, run) == s
  }

  lemma ReachableInv(s: State)
    requires Reachable(s)
    ensures Inv(s)
  {
    var run :| IsRun(Initial, run) && After(Initial, run) == s;
    InvRun(Initial, run);
  }

  /** At most one operation is in its execute section, whatever the interleaving and the crashes. */
  lemma MutualExclusion(s: State, a: OpId, b: OpId)
    requires Reachable(s)
    requires a in s.pcs && b in s.pcs && s.pcs[a].Executing? && s.pcs[b].Executing?
    ensures a == b
  {
    ReachableInv(s);
    assert AgreeAt(s, a) && AgreeAt(s, b);
  }

  /** exit_code is 0 exactly when done, finished_at is set exactly when the status is terminal. */
  lemma ReachableRowsOk(s: State, id: OpId)
    requires Reachable(s) && id in s.rows
    ensures s.rows[id].exitCode == Some(0) <==> s.rows[id].status == Done
    ensures s.rows[id].exitCode == Some(1) <==> s.rows[id].status == Failed || s.rows[id].status == Interrupted
    ensures s.rows[id].finishedAt.Some? <==> s.rows[id].status in {Done, Failed, Interrupted}
    ensures s.rows[id].startedAt.Some? <==> s.rows[id].status != Pending
  {
    ReachableInv(s);
    assert AgreeAt(s, id);
  }

  /** pending -> running -> done | failed | interrupted, one stage at a time. */
  predicate Advances(before: Row, after: Row) {
    || before == after
    || (before.status == Pending && after.status == Running)
    || (before.status == Running && Terminal(after.status))
  }

  lemma StatusAdvances(s: State, a: Action, id: OpId)
    requires Reachable(s) && Enabled(s, a) && id in s.rows
    ensures id in Apply(s, a).rows && Advances(s.rows[id], Apply(s, a).rows[id])
  {
    ReachableInv(s);
    assert AgreeAt(s, id);
  }

  ghost predicate TerminalRowsStay(s: State, run: seq<Action>)
    requires IsRun(s, run)
  {
    forall id :: id in s.rows && Terminal(s.rows[id].status) ==>
      id in After(s, run).rows && After(s, run).rows[id] == s.rows[id]
  }

  lemma TerminalStep(s: State, a: Action, id: OpId)
    requires Inv(s) && Enabled(s, a) && id in s.rows && Terminal(s.rows[id].status)
    ensures id in Apply(s, a).rows && Apply(s, a).rows[id] == s.rows[id]
  {
    assert AgreeAt(s, id);
  }

  /** Once terminal, a row is never written again. */
  lemma {:induction false} TerminalIsForever(s: State, run: seq<Action>, id: OpId)
    requires Inv(s) && IsRun(s, run) && id in s.rows && Terminal(s.rows[id].status)
    ensures id in After(s, run).rows && After(s, run).rows[id] == s.rows[id]
    decreases |run|
  {
    if run != [] {
      InvStep(s, run[0]);
      TerminalStep(s, run[0], id);
      TerminalIsForever(Apply(s, run[0]), run[1..], id);
    }
  }

  /** Right after a boot no row is running, and the sweep has touched nothing but running rows. */
  lemma BootLeavesNoneRunning(s: State, now: Time, id: OpId)
    requires Reachable(s) && !s.up && id in s.rows
    ensures var row := Apply(s, Boot(now)).rows[id];
      && row.status != Running
      && (s.rows[id].status == Running ==> row.status == Interrupted && row.finishedAt == Some(now))
      && (s.rows[id].status != Running ==> row == s.rows[id])
  {
  }

  // ---- A sweep at any other time ----

  /** The sweep run by a process other than the booting one. */
  function SweepNow(s: State, now: Time): State {
    s.(rows := SweepRows(s.rows, now))
  }

  /** From `s` on, no terminal row ever changes. */
  ghost predicate Absorbing(s: State) {
    forall run | IsRun(s, run) :: TerminalRowsStay(s, run)
  }

  ghost predicate NoneInFlight(s: State) {
    forall id :: id in s.pcs ==> !InFlight(s.pcs[id])
  }

  lemma FollowedBy(s: State, a: Action, run: seq<Action>)
    requires Enabled(s, a) && IsRun(Apply(s, a), run)
    ensures IsRun(s, [a] + run) && After(s, [a] + run) == After(Apply(s, a), run)
  {
    assert ([a] + run)[1..] == run;
  }

  /** A process past the begin step can go on to write its terminal status, whatever its row says by then. */
  lemma WritesAnyway(s: State, id: OpId, now: Time) returns (run: seq<Action>)
    requires s.up && id in s.rows && id in s.pcs && InFlight(s.pcs[id])
    ensures IsRun(s, run)
    ensures id in After(s, run).rows && After(s, run).rows[id].status in {Done, Failed}
    decreases match s.pcs[id] case Locking => 3 case Executing => 2 case Releasing(_) => 1 case _ => 0
  {
    var a := match s.pcs[id]
      case Locking => TryLock(id)
      case Executing => Finish(id, true)
      case Releasing(_) => Release(id, true)
      case Refused => RecordRefusal(id, now)
      case _ => Record(id, now);
    var rest: seq<Action> := [];
    if a.TryLock? || a.Finish? || a.Release? {
      rest := WritesAnyway(Apply(s, a), id, now);
    }
    FollowedBy(s, a, rest);
    run := [a] + rest;
  }

  /**
   Sweeping a running container is safe exactly when no process stands between marking its row
   running and recording its result: the reason the sweep is tied to the boot.
   */
  lemma SweepSafeIffNoneInFlight(s: State, now: Time)
    requires Reachable(s) && s.up
    ensures Absorbing(SweepNow(s, now)) <==> NoneInFlight(s)
  {
    ReachableInv(s);
    var t := SweepNow(s, now);
    if NoneInFlight(s) {
      forall id | id in t.rows ensures AgreeAt(t, id) {
        assert AgreeAt(s, id);
      }
      forall run, id | IsRun(t, run) && id in t.rows && Terminal(t.rows[id].status)
        ensures id in After(t, run).rows && After(t, run).rows[id] == t.rows[id]
      {
        TerminalIsForever(t, run, id);
      }
    } else {
      var id :| id in s.pcs && InFlight(s.pcs[id]);
      assert AgreeAt(s, id);
      var run := WritesAnyway(t, id, now);
      assert t.rows[id].status == Interrupted;
      assert !TerminalRowsStay(t, run);
    }
  }

  lemma {:induction false} RunThen(s: State, run: seq<Action>, a: Action)
    requires IsRun(s, run) && Enabled(After(s, run), a)
    ensures IsRun(s, run + [a]) && After(s, run + [a]) == Apply(After(s, run), a)
    decreases |run|
  {
    hide Apply, Enabled;
    if run == [] {
      assert [a][1..] == [];
      assert [] + [a] == [a];
    } else {
      RunThen(Apply(s, run[0]), run[1..], a);
      assert (run + [a])[1..] == run[1..] + [a];
    }
  }

  lemma ReachableNext(s: State, a: Action)
    requires Reachable(s) && Enabled(s, a)
    ensures Reachable(Apply(s, a))
  {
    hide Apply, Enabled;
    var run :| IsRun(Initial, run) && After(Initial, run) == s;
    RunThen(Initial, run, a);
  }

  /** Boot, create, launch, begin, lock: after that an operation is executing. */
  lemma OneExecutes() returns (s: State)
    ensures Reachable(s) && s.up && s.pcs == map["op" := Executing]
  {
    assert IsRun(Initial, []) && After(Initial, []) == Initial;
    s := Initial;
    hide Reachable, IsRun, After;
    ReachableNext(s, Boot(0));
    s := Apply(s, Boot(0));
    assert s == State(true, map[], map[], None);
    ReachableNext(s, Create("op"));
    s := Apply(s, Create("op"));
    ReachableNext(s, Launch("op"));
    s := Apply(s, Launch("op"));
    assert s == State(true, map["op" := FreshRow], map["op" := Starting], None);
    ReachableNext(s, Begin("op", 1));
    s := Apply(s, Begin("op", 1));
    ReachableNext(s, TryLock("op"));
    s := Apply(s, TryLock("op"));
  }

  /** In that state a stray sweep interrupts the row, and the row ends up done or failed. */
  lemma StraySweepCounterexample()
    ensures exists s :: Reachable(s) && s.up && !Absorbing(SweepNow(s, 5))
  {
    var s := OneExecutes();
    assert s.pcs["op"] == Executing;
    SweepSafeIffNoneInFlight(s, 5);
  }

  // ---- Where a terminal status comes from ----

  ghost predicate Finished(run: seq<Action>, id: OpId, success: bool) {
    exists i :: 0 <= i < |run| && run[i] == Finish(id, success)
  }

  /** The operation ended so, and its process recorded it later. */
  ghost predicate Recorded(run: seq<Action>, id: OpId, success: bool) {
    exists i, j :: 0 <= i < j < |run| && run[i] == Finish(id, success) && run[j].Record? && run[j].id == id
  }

  ghost predicate WasRefused(run: seq<Action>, id: OpId) {
    exists j :: 0 <= j < |run| && run[j].RecordRefusal? && run[j].id == id
  }

  ghost predicate WasSwept(run: seq<Action>) {
    exists j :: 0 <= j < |run| && run[j].Boot?
  }

  /** The history of the row of an operation. */
  ghost predicate Explained(run: seq<Action>, s: State, id: OpId) {
    && (At(s, id).Releasing? || At(s, id).Recording? ==> Finished(run, id, At(s, id).success))
    && (id in s.rows && s.rows[id].status == Done ==> Recorded(run, id, true))
    && (id in s.rows && s.rows[id].status == Failed ==> Recorded(run, id, false) || WasRefused(run, id))
    && (id in s.rows && s.rows[id].status == Interrupted ==> WasSwept(run))
  }

  lemma HistoryGrows(run: seq<Action>, a: Action, id: OpId, success: bool)
    ensures Finished(run, id, success) ==> Finished(run + [a], id, success)
    ensures Recorded(run, id, success) ==> Recorded(run + [a], id, success)
    ensures WasRefused(run, id) ==> WasRefused(run + [a], id)
    ensures WasSwept(run) ==> WasSwept(run + [a])
    ensures a == Finish(id, success) ==> Finished(run + [a], id, success)
    ensures Finished(run, id, success) && a.Record? && a.id == id ==> Recorded(run + [a], id, success)
    ensures a.RecordRefusal? && a.id == id ==> WasRefused(run + [a], id)
    ensures a.Boot? ==> WasSwept(run + [a])
  {
    var longer := run + [a];
    assert longer[|run|] == a;
    assert forall i :: 0 <= i < |run| ==> longer[i] == run[i];
    if Finished(run, id, success) {
      var i :| 0 <= i < |run| && run[i] == Finish(id, success);
      assert longer[i] == Finish(id, success);
    }
    if Recorded(run, id, success) {
      var i, j :| 0 <= i < j < |run| && run[i] == Finish(id, success) && run[j].Record? && run[j].id == id;
      assert longer[i] == Finish(id, success) && longer[j].Record?;
    }
    if WasRefused(run, id) {
      var j :| 0 <= j < |run| && run[j].RecordRefusal? && run[j].id == id;
      assert longer[j].RecordRefusal?;
    }
    if WasSwept(run) {
      var j :| 0 <= j < |run| && run[j].Boot?;
      assert longer[j].Boot?;
    }
  }

  lemma ExplainedStep(run: seq<Action>, s: State, a: Action, id: OpId)
    requires Explained(run, s, id) && Enabled(s, a)
    ensures Explained(run + [a], Apply(s, a), id)
  {
    hide Finished, Recorded, WasRefused, WasSwept;
    HistoryGrows(run, a, id, true);
    HistoryGrows(run, a, id, false);
    if Actor(a).Some? && Actor(a).value != id {
      ActorOnly(s, a, Actor(a).value, id);
      hide Apply, Enabled;
      assert Explained(run + [a], Apply(s, a), id);
    } else if Actor(a).Some? {
      ExplainedActor(run, s, a, id);
    }
  }

  lemma ActorOnly(s: State, a: Action, x: OpId, id: OpId)
    requires Enabled(s, a) && Actor(a) == Some(x) && x != id
    ensures At(Apply(s, a), id) == At(s, id)
    ensures id in Apply(s, a).rows <==> id in s.rows
    ensures id in s.rows ==> Apply(s, a).rows[id] == s.rows[id]
  {
  }

  lemma ExplainedActor(run: seq<Action>, s: State, a: Action, id: OpId)
    requires Explained(run, s, id) && Enabled(s, a) && Actor(a) == Some(id)
    ensures Explained(run + [a], Apply(s, a), id)
  {
    hide Finished, Recorded, WasRefused, WasSwept, Killed, SweepRows;
    HistoryGrows(run, a, id, true);
    HistoryGrows(run, a, id, false);
  }

  lemma {:induction false} ExplainedRun(past: seq<Action>, s: State, run: seq<Action>, id: OpId)
    requires Explained(past, s, id) && IsRun(s, run)
    ensures Explained(past + run, After(s, run), id)
    decreases |run|
  {
    hide Explained, Apply, Enabled;
    if run == [] {
      assert past + run == past;
    } else {
      ExplainedStep(past, s, run[0], id);
      ExplainedRun(past + [run[0]], Apply(s, run[0]), run[1..], id);
      assert past + [run[0]] + run[1..] == past + run;
    }
  }

  /**
   On every run from the start: a row is done only if its operation succeeded and its process then
   recorded it, failed only if the operation failed and was recorded or the lock was refused, and
   interrupted only if the container booted.
   */
  lemma TerminalStatusIsEarned(run: seq<Action>, id: OpId)
    requires IsRun(Initial, run) && id in After(Initial, run).rows
    ensures var row := After(Initial, run).rows[id];
      && (row.status == Done ==> Recorded(run, id, true))
      && (row.status == Failed ==> Recorded(run, id, false) || WasRefused(run, id))
      && (row.status == Interrupted ==> WasSwept(run))
  {
    ExplainedRun([], Initial, run, id);
    assert [] + run == run;
  }

  /** And a recording writes what the operation's end was. */
  lemma RecordTells(s: State, id: OpId, success: bool, freed: bool, now: Time)
    requires Enabled(s, Finish(id, success))
    ensures var script := [Finish(id, success), Release(id, freed), Record(id, now)];
      && IsRun(s, script)
      && id in After(s, script).rows
      && After(s, script).rows[id] == Row(if success then Done else Failed, Some(if success then 0 else 1),
                                          s.rows[id].startedAt, Some(now))
  {
    var s1 := Apply(s, Finish(id, success));
    var s2 := Apply(s1, Release(id, freed));
    var s3 := Apply(s2, Record(id, now));
    assert IsRun(s3, []) && After(s3, []) == s3;
    FollowedBy(s2, Record(id, now), []);
    FollowedBy(s1, Release(id, freed), [Record(id, now)]);
    FollowedBy(s, Finish(id, success), [Release(id, freed), Record(id, now)]);
  }

  // ---- The code that writes the table ----

  /** What one process does when no other action comes in between. */
  function Script(id: OpId, holder: Option<OpId>, success: bool, begun: Time, ended: Time): seq<Action> {
    if holder.Some? then [Begin(id, begun), TryLock(id), RecordRefusal(id, ended)]
    else [Begin(id, begun), TryLock(id), Finish(id, success), Release(id, true), Record(id, ended)]
  }

  class NodeOpTable {
    var rows: map<OpId, Row>
    var lock: Option<OpId>

    /** The boot sweep: every running row becomes interrupted. */
    method SweepInterrupted(now: Time) returns (count: nat)
      modifies this`rows
      ensures rows == SweepRows(old(rows), now)
      ensures rows.Keys == old(rows).Keys
      ensures forall id | id in rows && old(rows)[id].status == Running ::
        rows[id] == Row(Interrupted, Some(1), old(rows)[id].startedAt, Some(now))
      ensures forall id :: id in rows && old(rows)[id].status != Running ==> rows[id] == old(rows)[id]
      ensures count == |set id | id in old(rows) && old(rows)[id].status == Running|
    {
      var running := set id | id in rows && rows[id].status == Running;
      var todo := running;
      while todo != {}
        invariant todo <= running && rows.Keys == old(rows).Keys
        invariant forall id :: id in rows ==>
          rows[id] == if id !in todo then SweptRow(old(rows)[id], now) else old(rows)[id]
        decreases |todo|
      {
        var id :| id in todo;
        rows := rows[id := rows[id].(status := Interrupted, exitCode := Some(1), finishedAt := Some(now))];
        todo := todo - {id};
      }
      assert rows == SweepRows(old(rows), now);
      count := |running|;
    }

    /** `op-run`, with the operation's outcome as a parameter; an unknown id is reported and changes nothing. */
    method OpRun(id: OpId, success: bool, begun: Time, ended: Time) returns (found: bool)
      requires lock != Some(id)
      modifies this
      ensures found <==> id in old(rows)
      ensures !found ==> rows == old(rows) && lock == old(lock)
      ensures found ==>
        var s := State(true, old(rows), map[id := Starting], old(lock));
        var script := Script(id, old(lock), success, begun, ended);
        IsRun(s, script) && rows == After(s, script).rows && lock == After(s, script).lock
      ensures found ==> rows.Keys == old(rows).Keys && lock == old(lock)
      ensures found ==> forall x :: x in rows && x != id ==> rows[x] == old(rows)[x]
      ensures found ==> rows[id].startedAt == Some(begun) && rows[id].finishedAt == Some(ended)
      ensures found && old(lock).None? && success ==> rows[id].status == Done && rows[id].exitCode == Some(0)
      ensures found && (old(lock).Some? || !success) ==> rows[id].status == Failed && rows[id].exitCode == Some(1)
    {
      found := id in rows;
      if !found {
        return;
      }
      ghost var s := State(true, rows, map[id := Starting], lock);
      ghost var script := Script(id, lock, success, begun, ended);
      rows := rows[id := rows[id].(status := Running, startedAt := Some(begun))];
      if lock.Some? {
        rows := rows[id := rows[id].(status := Failed, exitCode := Some(1), finishedAt := Some(ended))];
        ScriptRuns(s, id, success, begun, ended);
        return;
      }
      lock := Some(id);
      lock := None;
      if success {
        rows := rows[id := rows[id].(status := Done, exitCode := Some(0), finishedAt := Some(ended))];
      } else {
        rows := rows[id := rows[id].(status := Failed, exitCode := Some(1), finishedAt := Some(ended))];
      }
      ScriptRuns(s, id, success, begun, ended);
    }
  }

  /** An undisturbed process always reaches its terminal row, refused or not. */
  lemma ScriptRuns(s: State, id: OpId, success: bool, begun: Time, ended: Time)
    requires s.up && id in s.rows && At(s, id) == Starting && s.lock != Some(id)
    ensures var script := Script(id, s.lock, success, begun, ended);
      && IsRun(s, script)
      && After(s, script).lock == s.lock
      && After(s, script).rows == s.rows[id :=
           FinalRow(s.rows[id].(status := Running, startedAt := Some(begun)), s.lock.None? && success, ended)]
  {
    if s.lock.Some? {
      RefusedRuns(s, id, begun, ended);
    } else {
      CompletedRuns(s, id, success, begun, ended);
    }
  }

  lemma RefusedRuns(s: State, id: OpId, begun: Time, ended: Time)
    requires s.up && id in s.rows && At(s, id) == Starting && s.lock.Some?
    ensures var script := [Begin(id, begun), TryLock(id), RecordRefusal(id, ended)];
      && IsRun(s, script)
      && After(s, script).lock == s.lock
      && After(s, script).rows == s.rows[id := FinalRow(s.rows[id].(status := Running, startedAt := Some(begun)), false, ended)]
  {
    var s1 := Apply(s, Begin(id, begun));
    var s2 := Apply(s1, TryLock(id));
    FollowedBy(s2, RecordRefusal(id, ended), []);
    FollowedBy(s1, TryLock(id), [RecordRefusal(id, ended)]);
    FollowedBy(s, Begin(id, begun), [TryLock(id), RecordRefusal(id, ended)]);
  }

  lemma CompletedRuns(s: State, id: OpId, success: bool, begun: Time, ended: Time)
    requires s.up && id in s.rows && At(s, id) == Starting && s.lock.None?
    ensures var script := [Begin(id, begun), TryLock(id), Finish(id, success), Release(id, true), Record(id, ended)];
      && IsRun(s, script)
      && After(s, script).lock == None
      && After(s, script).rows == s.rows[id := FinalRow(s.rows[id].(status := Running, startedAt := Some(begun)), success, ended)]
  {
    var s1 := Apply(s, Begin(id, begun));
    var s2 := Apply(s1, TryLock(id));
    ExecutionRuns(s2, id, success, ended);
    FollowedBy(s1, TryLock(id), [Finish(id, success), Release(id, true), Record(id, ended)]);
    FollowedBy(s, Begin(id, begun), [TryLock(id), Finish(id, success), Release(id, true), Record(id, ended)]);
  }

  lemma ExecutionRuns(s: State, id: OpId, success: bool, ended: Time)
    requires s.up && id in s.rows && At(s, id) == Executing && s.lock == Some(id)
    ensures var script := [Finish(id, success), Release(id, true), Record(id, ended)];
      && IsRun(s, script)
      && After(s, script).lock == None
      && After(s, script).rows == s.rows[id := FinalRow(s.rows[id], success, ended)]
  {
    var s1 := Apply(s, Finish(id, success));
    var s2 := Apply(s1, Release(id, true));
    FollowedBy(s2, Record(id, ended), []);
    FollowedBy(s1, Release(id, true), [Record(id, ended)]);
    FollowedBy(s, Finish(id, success), [Release(id, true), Record(id, ended)]);
  }
}
