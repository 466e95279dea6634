# Models of the code-server cluster controller

The repository runs one code-server container per student on a Docker swarm. This project models the
parts of its controller that decide something, and proves what they decide:

- **Rebalancing** (`Rebalance`, `Sums`): the planner that empties drained nodes and levels the others.
- **Node operations** (`NodeOps`): detached processes competing for one file lock over a shared table of rows,
  with crashes, container restarts and the sweep at boot.
- **Autoscaling** (`Autoscale`, `ScaleUpTheory`, `ScaleDownTheory`, `Demand`): demand, one cycle's plan, and what
  plans achieve over successive cycles.
- **State between autoscaler cycles** (`Cooldown`, `Reaper`): the `empty_since` sidecar and the purge windows
  that the reaper consumes.
- **The code-server manager** (`DockerPermits`, `HostSync`): the Docker semaphore with the fork locks nested in it,
  and the reconciliation of the host table with the swarm.
- **Smaller reconcilers** (`Pins`, `Serials`, `DnsSync`): placement pins, serial node names, DNS A records.

`Common` holds an option type, extrema and Python's stable `sorted`. Code that changes state step by step is
written as methods with loops and classes, each proved equal to a function of its inputs or of the old state; the
theorems are about those functions. Docker, DigitalOcean, GitHub and the database appear as outcomes (which call fails,
what a probe answers), and every theorem holds for all of them. Where two processes or threads interleave, the
model is a transition system and the theorems are about every reachable state.

Five properties one might expect do not hold of the code. Each has a concrete input that shows it and a condition
that decides, for all inputs, when the property does hold:

- The dead-band that guards scale-down looks at the load, not at the demand: `ScaleDownTheory.DeadBandCounterexample`,
  and `ScaleDownTheory.DeadBandCoversExactly` (it is safe exactly when demand <= load + headroom + 1).
- A scale-up plan has the fewest nodes but not always the least capacity for that many: `ScaleUpTheory.TwoSmallBeat`,
  `ScaleUpTheory.MiddleTierCounterexample` (tiers 6, 10 and 14: a deficit of 10 is given a 14), and
  `ScaleUpTheory.LeastCapacityExactly` (it does for every deficit exactly when no tier lies between the smallest and the
  largest, and two of the smallest fit in the largest or the two are the same size).
- Sweeping interrupted operations anywhere but at boot lets a terminal row change: `NodeOps.StraySweepCounterexample`,
  and `NodeOps.SweepSafeIffNoneInFlight` (safe exactly when no process is between its start and its last write).
- `_get_next_serial` gives a fresh name only when the serial ends the short name: `Serials.TailClashes`, and
  `Serials.FreshIffSerialLast`.
- A node that carries a host of a protected class is meant to stay (cspawn/cs_docker/autoscale.py:1332-1335), but the lookup
  knows short names only, while the manager records full hostnames (cspawn/cs_docker/csmanager.py:226 and 749):
  `Cooldown.FullNameCounterexample`, `Cooldown.GuardHoldsIffShort` (a record keeps its node exactly when it is the node's
  short name) and `Cooldown.FullNameGuardsIffUndotted` (so a full hostname keeps it exactly when it has no dot).

One more fact about the code worth knowing: a dormant pass of the reaper clears the purge window even when a host could
not be deleted. Exactly the undeletable hosts of the class then stay (`Reaper.DormantPassLeaves`), and no later cycle
tries them again (`Reaper.FailedDeleteIsForgotten`).

## Model

| member | source | states |
|---|---|---|
| Rebalance.PlanRebalance | cspawn/cli/node.py:417-481 | for any tie-breaking, the moves are exactly the first min(cap, length) moves of the uncapped plan; replayed on the live placement with empty lists for missing eligible nodes, they are legal greedy choices that keep every host, stay within the cap, and, unless the cap stopped them, end balanced after as few moves as any balancing run |
| Rebalance.AddMissing | cspawn/cli/node.py:437-441 | the working copy has exactly the live nodes, each with its own hosts, and an empty list for every eligible node that had none |
| Rebalance.PlanIsGreedy | cspawn/cli/node.py:449-479 | each move takes the last host of its source to the chosen least loaded eligible node; the source is the first listed ineligible node with hosts or, without one, the chosen most loaded eligible node, two or more hosts above the target |
| Rebalance.PlanIsRebalance | cspawn/cli/node.py:446-481 | every allowed beginning of the plan is such a run within the cap, keeps all hosts, and is balanced and shortest when the cap was not reached |
| Rebalance.Evacuate | cspawn/cli/node.py:455-466 | the loop over one ineligible node stays on the plan and leaves the node empty unless the cap was reached |
| Rebalance.Level | cspawn/cli/node.py:470-479 | from emptied ineligible nodes, the levelling loop completes the plan or its capped prefix |
| Rebalance.PythonOrderBreaksTies | cspawn/cli/node.py:449-450 | Python's min and max (first extreme element in iteration order) are among the tie-breaks the theorems range over |
| Rebalance.NoMoveIsBalanced | cspawn/cli/node.py:452-476 | the greedy stops exactly when every ineligible node is empty and eligible loads differ by at most one |
| Rebalance.PlanBalances | cspawn/cli/node.py:452-481 | replaying the plan is legal at each step (the host is on the source then) and ends with ineligible nodes empty and eligible loads within one of each other |
| Rebalance.PlanLength | cspawn/cli/node.py:452-481 | the plan has exactly max(E + S1, S2) moves: E hosts on ineligible nodes, S1 the loads above q + 1, S2 the room below q, q the quotient of hosts by eligible nodes |
| Rebalance.PlanIsShortest | cspawn/cli/node.py:452-481 | no legal sequence of single-host moves that reaches a balanced placement is shorter than the plan |
| Rebalance.AnyMoveGainsAtMostOne | cspawn/cli/node.py:452-481 | no single move of any host lowers the number of moves still needed by more than one |
| Rebalance.GreedyMoveGainsOne | cspawn/cli/node.py:452-481 | every move the planner makes is legal and lowers the number of moves still needed by exactly one |
| Rebalance.NeedZeroIsBalanced | cspawn/cli/node.py:468-476 | that number is never negative, and zero exactly for the balanced placements |
| Rebalance.LevellingLowersSquares | cspawn/cli/node.py:470-479 | each levelling move strictly lowers the sum of squared eligible loads |
| Rebalance.ReplayKeepsHosts | cspawn/cli/node.py:464-466 | any legal sequence of moves keeps the number of copies of each host over all nodes |
| Rebalance.GreedyMoveSparesReceivers | cspawn/cli/node.py:449-479 | one greedy move never takes from a node that has received, and keeps every such node within one of the lightest eligible node |
| Rebalance.ReceiversNeverSend | cspawn/cli/node.py:449-479 | in the whole plan, a node that receives a host is the source of no later move, in either phase |
| Rebalance.ReceivedHostStays | cspawn/cli/node.py:449-479 | a host sitting on a node that has received one is in no later move |
| Rebalance.NoHostMovesTwice | cspawn/cli/node.py:449-479 | with distinct hosts in the input, the plan moves no host twice |
| NodeOps.NodeOpTable.OpRun | cspawn/cli/node.py:3446-3576 | one undisturbed op-run: with the lock free, success ends done with exit code 0, failure ends failed with 1; with the lock held it ends failed with 1; start and finish times are set, the lock and all other rows are as before, and it is a run of the protocol; an unknown id changes nothing |
| NodeOps.ScriptRuns | cspawn/cli/node.py:3446-3576 | that sequence of actions is a run of the protocol, gives the lock back, and makes the row done or failed |
| NodeOps.NodeOpTable.SweepInterrupted | cspawn/models.py:655-672 | every running row becomes interrupted with exit code 1 and the sweep's time, keeping its start time; no other row changes; the count is the number of running rows |
| NodeOps.InvStep | cspawn/cli/node.py:3446-3576 | every action of any process, any crash, stop and boot keeps the invariant tying each row to its process and the lock |
| NodeOps.InvRun | cspawn/cli/node.py:3446-3576 | the invariant holds along every interleaving |
| NodeOps.MutualExclusion | cspawn/cli/node.py:3489-3562 | in every reachable state at most one operation is in its execute section |
| NodeOps.ReachableRowsOk | cspawn/cli/node.py:3564-3576 | in every reachable state the exit code is 0 exactly when done and 1 exactly when failed or interrupted, finished_at is set exactly when terminal, started_at exactly when no longer pending |
| NodeOps.TerminalStatusIsEarned | cspawn/cli/node.py:3492-3576 | on every run a row is done only after its operation succeeded and its process then recorded it, failed only after a refusal or a recorded failure, interrupted only after a boot |
| NodeOps.RecordTells | cspawn/cli/node.py:3567-3576 | in any state where an operation executes, ending, unlocking (which may fail) and recording write done with 0 or failed with 1 as the operation ended |
| NodeOps.StatusAdvances | cspawn/cli/node.py:3459-3575 | every step keeps a row's status or moves it along pending, running, one terminal status |
| NodeOps.TerminalIsForever | cspawn/models.py:638-645 | once terminal, a row never changes again on any run |
| NodeOps.BootLeavesNoneRunning | cspawn/app.py:6-17 | after the boot sweep no row is running; exactly the rows that were running become interrupted |
| NodeOps.WritesAnyway | cspawn/cli/node.py:3543-3576 | a process in flight can always go on to write done or failed, whatever its row says by then |
| NodeOps.SweepSafeIffNoneInFlight | cspawn/models.py:647-651 | a sweep while the container is up keeps terminal rows final if and only if no process is in flight |
| NodeOps.StraySweepCounterexample | cspawn/models.py:647-651 | there is a reachable state in which a sweep that is not at boot lets a terminal row change |
| Autoscale.PlanScaleUp | cspawn/cs_docker/autoscale.py:350-400 | the clamped choice of large and small nodes, as the function ScaleUp of the deficit, the extreme tiers and the per-cycle cap; nothing without a deficit, and never more than the cap |
| Autoscale.PlanScaleDown | cspawn/cs_docker/autoscale.py:403-490 | the selection loop returns the function ScaleDown of the cluster view, whose properties are the rows of ScaleDownTheory |
| ScaleDownTheory.TotalsAppend | cspawn/cs_docker/autoscale.py:130-143 | one more node adds its hosts to the load whether it is a manager or not, its capacity and itself only as a worker |
| ScaleDownTheory.TotalsAre | cspawn/cs_docker/autoscale.py:130-143 | capacity is the sum of capacities over the workers, load the sum of hosts over all nodes, and the worker count the number of non-managers |
| ScaleDownTheory.PlanGoesOneWay | cspawn/cs_docker/autoscale.py:520-548 | a plan adds exactly when demand exceeds the workers' slots, by that amount, and then removes nothing; otherwise it adds nothing; it asks for a purge exactly when it removes |
| ScaleDownTheory.SelectionGoesInOrder | cspawn/cs_docker/autoscale.py:459-490 | candidates are taken in order: the choice among the first ones does not depend on later ones, which are judged at what the first ones left |
| Autoscale.LargestCapacity | cspawn/cs_docker/autoscale.py:372-375 | a positive bound on every configured tier's capacity |
| Autoscale.SmallestCapacity | cspawn/cs_docker/autoscale.py:372-376 | positive, at most every tier's capacity and at most the largest |
| ScaleUpTheory.FewestNodes | cspawn/cs_docker/autoscale.py:378-388 | an unclamped plan covers the deficit with ceil(deficit / L) nodes, and no multiset of nodes of capacity at most L covers it with fewer |
| ScaleUpTheory.SmallIffItFits | cspawn/cs_docker/autoscale.py:378-388 | an unclamped plan has at most one small node, and one exactly when the last node may be small and a large one there would leave room |
| ScaleUpTheory.LeastCapacityExactly | cspawn/cs_docker/autoscale.py:372-388 | unclamped plans have the least capacity among lists of as many nodes of configured tiers that cover the deficit, for all deficits, if and only if every tier is as large as the largest or the smallest, and twice the smallest is at most the largest or the two are equal |
| ScaleUpTheory.MiddleTierBeats | cspawn/cs_docker/autoscale.py:372-388 | any tier strictly between the extremes covers a deficit of its own capacity with one node, where the planner takes one large node |
| ScaleUpTheory.MiddleTierCounterexample | cspawn/cs_docker/autoscale.py:372-388 | with tiers of 6, 10 and 14, a deficit of 10 is given one node of 14 though one of 10 covers it |
| ScaleUpTheory.TwoSmallBeat | cspawn/cs_docker/autoscale.py:378-388 | when the smallest tier is more than half of a larger largest one, a deficit of two smallest nodes is covered by the planner with a large and a small node, hence not with the least capacity |
| ScaleUpTheory.ClampedIsBest | cspawn/cs_docker/autoscale.py:390-400 | a clamped plan has at most m nodes, and no plan of at most m nodes covers more of the deficit |
| ScaleUpTheory.OneCycle | cspawn/cs_docker/autoscale.py:378-400 | one cycle adds min(n, m) nodes and leaves a deficit that needs exactly max(0, n - m) more |
| ScaleUpTheory.ScaleUpConverges | cspawn/cs_docker/autoscale.py:520-530 | with demand fixed and every add succeeding, build_plan reaches deficit 0 after exactly ceil(ceil(d / L) / m) cycles, not before, having added exactly ceil(d / L) nodes |
| ScaleDownTheory.RemovalsAreOrdered | cspawn/cs_docker/autoscale.py:448-461 | removals are distinct occurrences of the view's nodes, in non-increasing serial order with nodes without a serial last, at most the per-cycle maximum; among equal serials they follow the listing order |
| ScaleDownTheory.EqualSerialsKeepOrder | cspawn/cs_docker/autoscale.py:449-453 | sorting leaves the candidates of each serial in their listing order |
| ScaleDownTheory.SelectionLeavesHeadroom | cspawn/cs_docker/autoscale.py:478-488 | a non-empty selection leaves more than the headroom of excess and at least the minimum of workers |
| ScaleDownTheory.SelectionIsMaximal | cspawn/cs_docker/autoscale.py:459-490 | if the selection stops short of the maximum, every candidate left out is blocked by some guard at the final excess and worker count |
| ScaleDownTheory.RemovalsAreMaximal | cspawn/cs_docker/autoscale.py:448-490 | if fewer than the maximum are removed, every empty plain worker left out is protected, not tracked, empty for less than the cooldown, or kept by the dead-band or the worker minimum at the final totals |
| ScaleDownTheory.ScaleDownIsSafe | cspawn/cs_docker/autoscale.py:130-143 | without the removed nodes, the sum of worker capacities still exceeds the sum of all hosts by more than headroom, the minimum of workers remains and no host is lost; a plan that removes adds nothing and finds the demand within the workers' slots |
| ScaleDownTheory.RemovedNodesQualify | cspawn/cs_docker/autoscale.py:411-420 | a removed node is no manager, no leader, empty, not protected, tracked, and has cooled down |
| ScaleDownTheory.DeadBandCoversExactly | cspawn/cs_docker/autoscale.py:342-347 | no removal plan of any cluster with that load uncovers the demand if and only if demand <= load + headroom + 1 |
| ScaleDownTheory.LargeIdleNodeGoes | cspawn/cs_docker/autoscale.py:478-480 | beyond that bound there is always a cluster whose large idle node is removed and a deficit appears |
| ScaleDownTheory.DeadBandCounterexample | cspawn/cs_docker/autoscale.py:478-480 | workers of 6, 6 and 14, load 0, headroom 2, demand 22: the 14 goes and a deficit of 10 appears |
| Demand.EstimateDemand | cspawn/cs_docker/autoscale.py:279-339 | the larger of live plus pending hosts and the prescale of active classes, plus headroom |
| Demand.HostsAppend | cspawn/cs_docker/autoscale.py:309-316 | one more host counts as live unless MIA or purgeable, and as pending unless ready or MIA |
| Demand.ClassAppend | cspawn/cs_docker/autoscale.py:334-337 | one more class adds, exactly while purge_after <= now < purge_by, the least whole number at or above the fraction of its roster |
| Demand.PrescaleAppend | cspawn/cs_docker/autoscale.py:318-337 | one more class adds its share of seats exactly when its window is active, whatever the other classes |
| Demand.ActiveIffPrescaled | cspawn/cs_docker/autoscale.py:334-337 | a class with students raises the prescale if and only if the reaper's zone for it is active |
| Cooldown.ShortToFqdn | cspawn/cs_docker/autoscale.py:691-697 | has the short name of every listed non-empty hostname as key, and maps short names only to listed hostnames they abbreviate |
| Cooldown.KnownIsListedLast | cspawn/cs_docker/autoscale.py:691-697 | a hostname is the one known under its short name exactly when it is listed and no other one of that short name is listed after it |
| Cooldown.UpdateEmptySince | cspawn/cs_docker/autoscale.py:699-719 | a hostname is remembered exactly when it is the last listed of its short name and no host is counted under that; a remembered time is kept and otherwise it is now |
| Cooldown.Record | cspawn/cs_docker/autoscale.py:705-713 | the loop over short names: an empty node is tracked, a loaded one is forgotten, others keep their entry, remembered times win over now |
| Cooldown.SidecarIsHistory | cspawn/cs_docker/autoscale.py:699-719 | after any trace of cycles, some of which failed before saving, a node is in the sidecar exactly when the last completed cycle saw it empty, with the time of the first cycle of that unbroken run |
| Cooldown.RunIsUnbroken | cspawn/cs_docker/autoscale.py:705-713 | RunStart is the start of the longest unbroken run of empty observations up to now |
| Cooldown.Autoscaler.RunCycle | cspawn/cs_docker/autoscale.py:1304-1402 | one cycle's plan is build_plan on the updated memory (pulled back if forced), filtered by direction; the file becomes the unforced update, or stays as it was when the cycle fails before saving |
| Cooldown.RemovedWasEmptyThroughout | cspawn/cs_docker/autoscale.py:467-476 | on an unforced run with non-decreasing time, a removed node was seen empty by a completed cycle at least the cooldown ago and by every completed cycle since: listed, with no positive host count |
| Cooldown.ProtectedNodes | cspawn/cs_docker/autoscale.py:1332-1362 | exactly the nodes whose short name is the node_name of a host of a class in its protected zone |
| Cooldown.ProtectedNodeStays | cspawn/cs_docker/autoscale.py:1332-1364 | a node carrying such a host, recorded under the node's short name, is not removed |
| Cooldown.GuardHoldsIffShort | cspawn/cs_docker/autoscale.py:1332-1364 | a protected class's host recorded under a name keeps a known node, in every cluster and under every plan, if and only if that name is the node's short name |
| Cooldown.FullNameGuardsIffUndotted | cspawn/cs_docker/csmanager.py:226 | recorded under the node's full hostname, as the manager does, it keeps the node if and only if the hostname has no dot |
| Cooldown.DottedNamesProtectNothing | cspawn/cs_docker/autoscale.py:1357-1362 | when all recorded node names contain a dot, no node at all is protected |
| Cooldown.FullNameCounterexample | cspawn/cs_docker/autoscale.py:1357-1364 | an idle worker with a host of a protected class recorded under its full hostname is removed |
| Cooldown.ForcedIsNoCooldown | cspawn/cs_docker/autoscale.py:1321-1330 | when remembered times are not in the future, a forced run selects exactly what a cooldown of zero would |
| Cooldown.ForcedCoolsAll | cspawn/cs_docker/autoscale.py:1324-1330 | a forced run treats every tracked node, and no other, as empty for at least the cooldown |
| Cooldown.RememberedTimesArePast | cspawn/cs_docker/autoscale.py:703-710 | after any trace with non-decreasing time, remembered times are indeed not in the future |
| Reaper.Tables.ApplyReaperZones | cspawn/cs_docker/autoscale.py:786-901 | one pass leaves hosts and windows as the function Reap says and reports each class's zone |
| Reaper.Tables.ReapHosts | cspawn/cs_docker/autoscale.py:820-899 | the loop over one class's hosts deletes the attempted, deletable ones and nothing else |
| Reaper.ReapedExactly | cspawn/cs_docker/autoscale.py:786-901 | a host row survives a pass unchanged unless some class attempts it and its deletion succeeds |
| Reaper.ZoneDecides | cspawn/cs_docker/autoscale.py:804-899 | with deletions succeeding, a host stays before purge_after, goes from purge_by on, and in between stays exactly when it was updated less than 15 minutes ago or never |
| Reaper.OthersStay | cspawn/cs_docker/autoscale.py:786-901 | hosts of classes that were not read, hosts whose deletion fails, and all hosts in a dry run stay; no row appears or changes |
| Reaper.ZonesTell | cspawn/cs_docker/autoscale.py:804-862 | the summary names exactly the classes read: protected before purge_after, dormant from purge_by on, active in between |
| Reaper.DormantLeavesNone | cspawn/cs_docker/autoscale.py:812-837 | after a dormant pass whose deletes all succeeded, the class has no host row |
| Reaper.DryRunChangesNothing | cspawn/cs_docker/autoscale.py:824-847 | a dry run changes neither hosts nor windows |
| Reaper.WindowAfterPass | cspawn/cs_docker/autoscale.py:839-858 | a window is lost exactly by a committed pass, not a dry run, at or after both purge_after and purge_by, and is otherwise unchanged |
| Reaper.NextWindow | cspawn/cs_docker/autoscale.py:670-681 | the next cycle processes a class exactly when this one did and did not commit a dormant pass, with the same window |
| Reaper.ZonesAdvance | cspawn/cs_docker/autoscale.py:804-860 | over a run with non-decreasing time and an unedited window, zones only advance: protected, active, dormant |
| Reaper.AtMostOneCommit | cspawn/cs_docker/autoscale.py:848-858 | such a run commits at most one dormant pass for the class |
| Reaper.DormantPassLeaves | cspawn/cs_docker/autoscale.py:821-854 | a host of the class outlives a committed dormant pass if and only if its row cannot be deleted |
| Reaper.FailedDeleteIsForgotten | cspawn/cs_docker/autoscale.py:831-854 | after a committed dormant pass, no later cycle of the run processes the class, none attempts any host of it, and every host row of it stays as that cycle found it |
| Reaper.UndeletedHostStays | cspawn/cs_docker/autoscale.py:831-854 | when only the reaper touches a host's row after such a pass, the row is still there in every later cycle, unchanged, if and only if it could not be deleted then |
| Reaper.FailedDeleteExample | cspawn/cs_docker/autoscale.py:831-854 | a pass that clears the window while a host whose delete failed stays in the table |
| DockerPermits.MethodsAreDisciplined | cspawn/cs_docker/csmanager.py:620-636 | every manager method, however its calls turn out, takes a permit only when it holds none, calls Docker only under one, and ends holding nothing |
| DockerPermits.TasksAreDisciplined | cspawn/cs_docker/csmanager.py:858-879 | so does any sequence of method calls in one thread |
| DockerPermits.PermitsTaken | cspawn/cs_docker/csmanager.py:521-527 | get, list and get_by_username take one permit for one Docker call; new_cs takes exactly one permit for all its calls |
| DockerPermits.SyncTakes | cspawn/cs_docker/csmanager.py:886-931 | sync lists once and looks at each of its hosts under a permit of its own |
| DockerPermits.StopsTake | cspawn/cs_docker/csmanager.py:775-836 | stopping looks the service up once, stop_host once more when it pushes |
| DockerPermits.ForkTakes | cspawn/cs_github/repo.py:434-459 | a fork takes its upstream's lock once and makes one more attempt than it is refused |
| DockerPermits.InvStep | cspawn/cs_docker/csmanager.py:517-529 | every step of any thread keeps: permits plus holders are N, the mutex and each fork lock belong to the thread that holds them, and every thread's rest is disciplined |
| DockerPermits.InvAlong | cspawn/cs_docker/csmanager.py:517-529 | the invariant holds along every schedule |
| DockerPermits.PermitsBoundDockerCalls | cspawn/cs_docker/csmanager.py:517-529 | in every reachable state permits plus holders are N and at most N threads are at a guarded Docker call |
| DockerPermits.NoReentry | cspawn/cs_docker/csmanager.py:521-527 | a thread about to take a permit holds none, and a release never exceeds the bound of the semaphore |
| DockerPermits.NoDeadlock | cspawn/cs_docker/csmanager.py:620-652 | with at least one permit, a reachable state with an unfinished thread has a thread that can step, fork locks taken under permits included |
| DockerPermits.StepsAreWork | cspawn/cs_docker/csmanager.py:604-636 | each step does one action of the work left, so schedules are finite |
| DockerPermits.MaximalSchedulesFinish | cspawn/cs_docker/csmanager.py:604-636 | a schedule that cannot be extended has finished every thread |
| DockerPermits.NestedGuardDeadlocks | cspawn/cs_docker/csmanager.py:725-731 | calling a guarded method inside a guarded block is undisciplined, and with one permit it does deadlock |
| DockerPermits.CreateWithRetry | cspawn/cs_github/repo.py:436-459 | succeeds exactly when one of the first eight answers is success and all before it are retryable; attempts and pauses are a beginning of eight attempts with 2, 4, 8, 16, 30, 30 and 30 seconds between them |
| DockerPermits.LastAttempt | cspawn/cs_github/repo.py:441-453 | the last attempt follows retryable refusals only, and is the eighth unless its answer is not retryable |
| DockerPermits.BackoffBound | cspawn/cs_github/repo.py:436-459 | a thread sleeps at most 120 seconds under a fork lock |
| DockerPermits.ForkLocks.GetForkLock | cspawn/cs_github/repo.py:14-23 | returns the one lock of an upstream, made at first use, distinct from all others, and keeps the existing ones |
| HostSync.HostTable.SyncToDb | cspawn/cs_docker/csmanager.py:138-162 | the row gets the reported status, or "mia" if the node is gone; app state "ready" if asked and found so, else "mia" if the node is gone, else what it was, "unknown" for a new row; a failed probe changes nothing |
| HostSync.HostTable.SyncAll | cspawn/cs_docker/csmanager.py:886-931 | one sync turns the table into the function Sync of it and of what the swarm answers, which the next rows spell out |
| HostSync.SyncRow | cspawn/cs_docker/csmanager.py:886-922 | a row without a service becomes ("mia", "mia"); a MIA row, a running one not known to be unready, and one whose probe fails stay; any other is rewritten from its probe as SyncToDb says |
| HostSync.SyncNewRow | cspawn/cs_docker/csmanager.py:924-931 | a service without a row gets one, from its probe, exactly when it is listed and the probe succeeds |
| HostSync.MiaForAReason | cspawn/cs_docker/csmanager.py:233-248 | a listed row that was not MIA is MIA after a sync only if its node is gone or its service reports that status |
| HostSync.HostTable.MarkMissing | cspawn/cs_docker/csmanager.py:897-902 | marks exactly the missing rows MIA |
| HostSync.HostTable.SyncNotReady | cspawn/cs_docker/csmanager.py:904-922 | updates exactly the rows that are not ready and not MIA, each from its own probe |
| HostSync.HostTable.SyncNew | cspawn/cs_docker/csmanager.py:926-931 | adds rows exactly for the listed services without one whose probe succeeds |
| HostSync.HostTable.UnsettledHosts | cspawn/cs_docker/csmanager.py:933-949 | returns exactly the rows with neither state nor app state "mia" and app state not "ready" |
| HostSync.HostTable.SyncConverge | cspawn/cs_docker/csmanager.py:951-1001 | runs sync until the first pass after which all hosts are settled or the deadline has passed, or the pass bound; reports exactly the unsettled rows; pauses exactly as Pauses says |
| HostSync.PausesEndInTime | cspawn/cs_docker/csmanager.py:988-993 | no pause runs past the deadline or exceeds the cap, and none is skipped while time is left |
| HostSync.PauseIsLeast | cspawn/cs_docker/csmanager.py:988-991 | a pause is the least of the grown delay, the cap and the time left |
| HostSync.GrownByHalf | cspawn/cs_docker/csmanager.py:988-989 | the delay starts at the initial one and is half as long again after each pass |
| HostSync.EachPassProbes | cspawn/cs_docker/csmanager.py:971-974 | every pass asks for readiness: an unsettled listed host that answers is ready after it |
| HostSync.SyncReconciles | cspawn/cs_docker/csmanager.py:886-931 | when no step fails, the rows are those that existed plus one per service, rows without a service are ("mia", "mia"), and new rows carry what their probe says |
| HostSync.SyncIsIdempotent | cspawn/cs_docker/csmanager.py:886-931 | for a fixed swarm and fixed answers, failures included, a second sync changes nothing |
| HostSync.SettledStaysSettled | cspawn/cs_docker/csmanager.py:936-939 | sync loses no row and never makes a settled row unsettled, whatever fails |
| HostSync.SettledOverPasses | cspawn/cs_docker/csmanager.py:971-974 | nor does any number of passes over a changing swarm |
| HostSync.MiaIsForever | cspawn/cs_docker/csmanager.py:914-916 | a row whose state is MIA stays so through any number of passes |
| Pins.PinReplaces | cspawn/cli/node.py:159-172 | after a pin the constraints are the earlier non-hostname ones in order, then the one new pin |
| Pins.PinMeans | cspawn/cli/node.py:162-172 | pinning keeps exactly the constraints that do not start with node.hostname== when spaces are removed, in order, and appends node.hostname== with the given name |
| Pins.UnpinClears | cspawn/cli/node.py:193-208 | unpinning removes the pin exactly when it names that node, by its full or its short name |
| Pins.UnpinMeans | cspawn/cli/node.py:193-206 | unpinning drops exactly the constraints that, spaces removed, are node.hostname== with the node's full or short name |
| Pins.StripLeavesNoBlank | cspawn/cli/node.py:163 | the comparison ignores all spaces |
| Pins.UnpinUndoesPin | cspawn/cli/node.py:159-208 | unpinning the node just pinned to leaves exactly the non-hostname constraints |
| Pins.UnpinIdentity | cspawn/cli/node.py:199-206 | unpinning is the identity if and only if no constraint pins to that node |
| Pins.OthersAreKept | cspawn/cli/node.py:162-165 | any sequence of pins and unpins keeps the other constraints and their order |
| Pins.RunsArePins | cspawn/cli/node.py:159-208 | after any such sequence with a pin in it, the constraints are the original others and the pin last set and not yet cleared |
| Pins.Services.UnpinServicesFromNode | cspawn/cli/node.py:175-214 | unpins every service whose update succeeds, leaves the refused ones and, in a dry run, all of them; counts exactly the services that unpinning changes, leaving out refused ones unless it is a dry run |
| Pins.NoneLeft | cspawn/cli/node.py:193-206 | an unpinned service has no constraint to the node, in full or short form, with spaces ignored |
| Serials.DecIsNumeral | cspawn/cli/node.py:2203-2216 | the printed serial is a non-empty numeral with that value and no leading zero |
| Serials.ValueReads | cspawn/cli/node.py:2216 | the value of a numeral is its decimal reading, digit by digit |
| Serials.ParseAccepts | cspawn/cli/node.py:2203-2216 | the template's pattern accepts exactly the names that spell some numeral of that value between prefix and suffix, the suffix being optional when it starts with a dot |
| Serials.FullNameRoundTrip | cspawn/cli/node.py:2203-2216 | parsing a printed full name gives the serial back, for every template |
| Serials.ShortNameRoundTrip | cspawn/cli/node.py:2203-2216 | parsing its short form gives the serial back if and only if the serial ends the first label or there is no domain, and otherwise fails |
| Serials.TrailingIsLongest | cspawn/cs_docker/autoscale.py:218-221 | the digits extracted from a hostname are the longest run of digits at its end |
| Serials.ExtractReads | cspawn/cs_docker/autoscale.py:218-221 | no serial without a final digit in the short name; otherwise the value of the digits that end it, from the last non-digit on |
| Serials.ExtractAgrees | cspawn/cs_docker/autoscale.py:218-221 | with the serial last in the short name, extraction returns it if and only if the prefix's own trailing digits are worth zero, so whenever the prefix does not end in a digit |
| Serials.GetNextSerial | cspawn/cli/node.py:497-520 | larger than every numeral that a listed short name carries after the short prefix, and exactly one more than the largest of them, or 1 when there is none |
| Serials.NextIsFresh | cspawn/cli/node.py:497-520 | with the serial last, no listed node has the next name, in full or short form |
| Serials.SerialsGrow | cspawn/cli/node.py:497-520 | with the serial last, the next serial exceeds every serial printed on a listed node, so successive joins strictly increase |
| Serials.FreshIffSerialLast | cspawn/cli/node.py:503-516 | the next name is fresh for every list of nodes if and only if the serial ends the short name |
| Serials.TailClashes | cspawn/cli/node.py:503-516 | for every template with text after the serial there is a list of nodes that already holds the next name |
| DnsSync.CurrentA | cspawn/cli/node.py:2498-2507 | groups exactly the A records of the numbered pattern by name, in listing order |
| DnsSync.NumberedMeans | cspawn/cli/node.py:2457-2458 | a name has the pattern exactly when it is the prefix and a numeral |
| DnsSync.DesiredNames | cspawn/cli/node.py:2466-2489 | the desired names are exactly the short names of listed non-empty hostnames that have the pattern |
| DnsSync.Domain.SyncDomainRecords | cspawn/cli/node.py:2436-2577 | the zone afterwards is what SyncResult says of it and of which calls failed; the counters are the numbers of records that are new, changed and gone |
| DnsSync.Domain.SyncDomain | cspawn/cli/node.py:2498-2575 | the same for given desired names |
| DnsSync.Domain.UpdateDesired | cspawn/cli/node.py:2515-2563 | the first loop settles every desired name and leaves the rest alone |
| DnsSync.Domain.SyncName | cspawn/cli/node.py:2516-2563 | one desired name is created, updated, or skipped for want of an address |
| DnsSync.Domain.UpdateName | cspawn/cli/node.py:2530-2563 | the first record of a name gets the address and TTL 60 unless its save fails, duplicates go unless their deletion fails |
| DnsSync.Domain.SavePrimary | cspawn/cli/node.py:2532-2555 | a record is saved, and counted, only if its data or TTL differs |
| DnsSync.Domain.RemoveUndesired | cspawn/cli/node.py:2565-2575 | the second loop settles every name of the pattern that is not desired |
| DnsSync.Domain.DestroyAll | cspawn/cli/node.py:2569-2575 | deletes exactly the given records whose deletion does not fail, and counts them |
| DnsSync.SyncReaches | cspawn/cli/node.py:2515-2575 | if no call fails, every desired name with an address has exactly one A record, with that address and TTL 60, and undesired names of the pattern have none |
| DnsSync.EachCallDecides | cspawn/cli/node.py:2530-2575 | whichever calls fail: undesired pattern records go unless their deletion fails; of a desired name's records the first listed gets address and TTL 60 unless its save fails, the others go unless their deletion fails |
| DnsSync.CreationDecides | cspawn/cli/node.py:2522-2529 | a desired name with an address and no record gets exactly one, or none if its creation fails |
| DnsSync.CreatedOnlyIfLacking | cspawn/cli/node.py:2522-2529 | every new record is an A record of a desired name that had an address and no record, with that address and TTL 60 |
| DnsSync.OthersUntouched | cspawn/cli/node.py:2498-2521 | records outside the pattern, and those of desired names without an address, are unchanged whatever fails |
| DnsSync.SyncIsIdempotent | cspawn/cli/node.py:2515-2575 | on a zone already in sync a run changes nothing |
| DnsSync.SecondRunReportsNothing | cspawn/cli/node.py:2515-2577 | and reports zero created, updated and removed |

## Left out

- Rebalance with no eligible node: the only caller refuses it (cspawn/cli/node.py:353). Carrying out the moves (push, pin, their failures) is not modelled, nor are tie-breaks that depend on more than the placement.
- `Rebalance.Evacuate`, `Rebalance.Level`, `HostSync.HostTable.SyncNotReady`, `DnsSync.Domain.SyncName` and their like are parts of one function in the source, split so that each loop has its own contract.
- Node operations: the same operation launched twice, deleted rows, messages, log files and the droplet write-back. "At most one row is running" and "a pending row is always picked up" are not claimed; neither holds.
- Autoscaler: applying a plan (provisioning, draining, re-checks before removal), rosters, capacity labels and configuration parsing. Classes without a whole purge window are never read and are not modelled.
- Float rounding: the roster fraction is an exact fraction, delays are reals, times are integer ticks.
- ScaleDownTheory.SelectionIsMaximal: capacities are assumed not to be negative, since a negative capacity label would raise the excess as nodes are chosen.
- ScaleDownTheory.ScaleDownIsSafe: hostnames are assumed distinct, since removal is by hostname.
- Cooldown.ProtectedNodeStays: protection is promised only for hosts recorded under the short name; `Cooldown.GuardHoldsIffShort` shows that the code gives no more.
- JSON and ISO encoding of the sidecar: saving and loading again is the identity.
- Reaper: the push and stop steps of `stop_host`; only whether the row is deleted matters to the zones.
- DockerPermits: calls made through a service object after its lookup (stopping it, reading its tasks) take no permit in the source and are not counted by the bound; which calls a method makes is given by how its outside calls turn out, not derived from Docker.
- HostSync: other columns, user and class lookups, the count of settled rows, and a failing commit in the loop that marks rows MIA, which would end the sync.
- Pins: the retries of Docker itself; an update either takes effect or is refused.
- Serials: templates whose serial is not in the first label or that contain other braces, digits outside 0-9, and a node listing that fails midway.
- DnsSync: the count of names skipped for want of an address, the droplet listing (addresses are a parameter), a failing record listing, and edits of the zone by others meanwhile.
- Flask routes, click output, logging, cloud-init and readiness waits, image pre-pull, version checks, migrations: plumbing without decisions of interest.
